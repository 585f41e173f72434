/** The linked hash map of src/bas/util/prefix_map.c, proved against the table of PrefixTable.dfy. */
module PrefixMap {
  import opened CText
  import opened PrefixTable

  class Entry {
    const key: string
    var value: Value?
    var next: Entry?

    constructor (key: string, value: Value?, next: Entry?)
      ensures this.key == key && this.value == value && this.next == next
    {
      this.key, this.value, this.next := key, value, next;
    }
  }

  /** hash_string */
  method HashString(s: string) returns (h: nat)
    ensures h == Hash(s)
  {
    var hash: nat := 5381;
    var i := 0;
    assert s[0..] == s;
    while i < |s|
      invariant i <= |s| && HashFrom(hash, s[i..]) == HashFrom(5381, s)
    {
      assert s[i..][1..] == s[i + 1..];
      hash := (hash * 33 + CharInt(s[i])) % 0x1_0000_0000;
      i := i + 1;
    }
    return hash % SIZE;
  }

  function At(es: seq<Entry>, k: nat): Entry? {
    if k < |es| then es[k] else null
  }

  /** A chain of entries, ending in NULL, that holds these pairs. */
  ghost predicate Linked(head: Entry?, es: seq<Entry>, chain: Chain)
    reads es
  {
    && |es| == |chain| && head == At(es, 0)
    && forall k :: 0 <= k < |es| ==>
         es[k].key == chain[k].key && es[k].value == chain[k].value && es[k].next == At(es, k + 1)
  }

  ghost predicate Apart(entries: seq<seq<Entry>>) {
    forall i, k, j, l ::
      0 <= i < |entries| && 0 <= k < |entries[i]| && 0 <= j < |entries| && 0 <= l < |entries[j]| && (i != j || k != l)
      ==> entries[i][k] != entries[j][l]
  }

  lemma NotElsewhere(entries: seq<seq<Entry>>, h: nat, n: nat)
    requires Apart(entries) && h < |entries| && n < |entries[h]|
    ensures forall i :: 0 <= i < |entries| && i != h ==> entries[h][n] !in entries[i]
    ensures forall k :: 0 <= k < |entries[h]| && k != n ==> entries[h][k] != entries[h][n]
  {
  }

  class PrefixMap {
    const buckets: array<Entry?>
    const destroys: bool
    var count: nat
    var destroyed: seq<Value>
    ghost var entries: seq<seq<Entry>>
    ghost var table: Table
    ghost var all: set<Entry>

    /** The buckets' chains are linked as the table says. */
    ghost predicate Shape()
      reads this`entries, this`table, this`all, buckets, all
    {
      && buckets.Length == SIZE && |entries| == SIZE && |table| == SIZE
      && (forall i, k :: 0 <= i < SIZE && 0 <= k < |entries[i]| ==> entries[i][k] in all)
      && (forall i :: 0 <= i < SIZE ==> Linked(buckets[i], entries[i], table[i]))
    }

    ghost predicate Valid()
      reads this, buckets, all
    {
      Shape() && TableOk(table) && count == |Concat(table)|
    }

    /** What an operation does to the calls of the destroy function. */
    ghost predicate Follows(was: State, op: Op)
      requires |was.table| == SIZE
      reads this
    {
      && table == Step(was, op).table
      && destroyed == if destroys then Step(was, op).destroyed else was.destroyed
    }

    /** prefix_map_create_ex; `destroys` is false for a NULL destroy function. */
    constructor (destroys: bool)
      ensures Valid() && fresh(buckets) && fresh(all)
      ensures table == Empty() && destroyed == [] && this.destroys == destroys
    {
      buckets := new Entry?[SIZE](_ => null);
      this.destroys := destroys;
      count, destroyed := 0, [];
      entries, table, all := seq(SIZE, _ => []), Empty(), {};
      new;
      ConcatOfEmpty(SIZE);
    }

    /** The walk along one chain to a key, or to its end. */
    method FindEntry(key: string, h: nat) returns (prev: Entry?, entry: Entry?, ghost n: nat)
      requires Valid() && h == Hash(key)
      ensures entry == At(entries[h], IndexOfKey(table[h], key)) && n == IndexOfKey(table[h], key)
      ensures prev == if n > 0 then entries[h][n - 1] else null
      ensures n < |table[h]| ==> entry != null
    {
      prev, entry, n := null, buckets[h], 0;
      assert Linked(buckets[h], entries[h], table[h]);
      while entry != null
        invariant n <= |entries[h]| && entry == At(entries[h], n)
        invariant prev == if n > 0 then entries[h][n - 1] else null
        invariant forall k :: 0 <= k < n ==> table[h][k].key != key
        decreases |entries[h]| - n
      {
        if entry.key == key {
          break;
        }
        prev, entry, n := entry, entry.next, n + 1;
      }
      KeyIsAt(table[h], key, n);
    }

    /** No entry is in two chains or twice in one. */
    lemma EntriesApart()
      requires Shape() && TableOk(table)
      ensures Apart(entries)
    {
      hide Hash;
      forall i, k, j, l |
        0 <= i < SIZE && 0 <= k < |entries[i]| && 0 <= j < SIZE && 0 <= l < |entries[j]| && (i != j || k != l)
        ensures entries[i][k] != entries[j][l]
      {
        assert Linked(buckets[i], entries[i], table[i]) && Linked(buckets[j], entries[j], table[j]);
        assert ChainOk(table[i], i) && ChainOk(table[j], j);
      }
    }

    /** A call of the destroy function on an entry's value, if there is a function and a value. */
    method DestroyValue(v: Value?)
      modifies this`destroyed
      ensures destroyed == if destroys then old(destroyed) + Destroy(v) else old(destroyed)
    {
      if destroys && v != null {
        destroyed := destroyed + [v];
      }
    }

    method SetValue(ghost h: nat, ghost n: nat, entry: Entry, value: Value?)
      requires Shape() && Apart(entries) && h < SIZE && n < |entries[h]| && entry == entries[h][n]
      modifies this`table, entry
      ensures Shape() && n < |old(table)[h]|
      ensures table == old(table)[h := old(table)[h][n := Pair(entry.key, value)]]
    {
      hide Linked, Apart;
      NotElsewhere(entries, h, n);
      ChainSet(buckets[h], entries[h], table[h], n, entry, value);
      table := table[h := table[h][n := Pair(entry.key, value)]];
    }

    method PushFront(h: nat, key: string, value: Value?)
      requires Shape() && h < SIZE
      modifies this`count, this`entries, this`all, this`table, buckets
      ensures Shape() && fresh(all - old(all)) && old(all) <= all && count == old(count) + 1
      ensures table == old(table)[h := [Pair(key, value)] + old(table)[h]]
    {
      hide Linked;
      var entry := new Entry(key, value, buckets[h]);
      LinkedPush(entry, entries[h], table[h]);
      buckets[h] := entry;
      count := count + 1;
      entries, all := entries[h := [entry] + entries[h]], all + {entry};
      table := table[h := [Pair(key, value)] + table[h]];
    }

    /** Take an entry out of its chain. */
    method Unlink(h: nat, ghost n: nat, prev: Entry?, entry: Entry)
      requires Shape() && Apart(entries) && h < SIZE && n < |entries[h]| && entry == entries[h][n]
      requires prev == if n > 0 then entries[h][n - 1] else null
      requires count > 0
      modifies this`table, this`entries, this`count, buckets, all
      ensures Shape() && n < |old(table)[h]| && count == old(count) - 1
      ensures entry.value == old(entry.value)
      ensures table == old(table)[h := old(table)[h][..n] + old(table)[h][n + 1..]]
    {
      hide Linked, Apart;
      NotElsewhere(entries, h, n);
      if n > 0 {
        NotElsewhere(entries, h, n - 1);
      }
      var first := ChainUnlink(buckets[h], entries[h], table[h], n, prev, entry);
      if prev == null {
        buckets[h] := first;
      }
      count := count - 1;
      entries := entries[h := entries[h][..n] + entries[h][n + 1..]];
      table := table[h := table[h][..n] + table[h][n + 1..]];
    }

    /** prefix_map_add */
    method Add(key: string, value: Value?)
      requires Valid()
      modifies this, buckets, all
      ensures Valid() && fresh(all - old(all))
      ensures Follows(old(State(table, destroyed)), PrefixTable.Add(key, value))
    {
      hide Hash, Concat, IndexOfKey, TableOk, PutIn, Linked, Apart;
      var h := HashString(key);
      var _, existing, n := FindEntry(key, h);
      PutKeepsTable(table, key, value);
      EntriesApart();
      ChainLength(h);
      if existing != null {
        ChainValue(h, n);
        DestroyValue(existing.value);
        SetValue(h, n, existing, value);
      } else {
        PushFront(h, key, value);
      }
    }

    /** prefix_map_get */
    method Get(key: string) returns (value: Value?)
      requires Valid()
      ensures value == if Lookup(table, key).Some? then Lookup(table, key).value else null
    {
      hide Hash, TableOk, Linked;
      var h := HashString(key);
      var _, entry, n := FindEntry(key, h);
      ChainLength(h);
      if entry != null {
        ChainValue(h, n);
        return entry.value;
      }
      return null;
    }

    /** prefix_map_contains: a key with a NULL value does not count. */
    method Contains(key: string) returns (found: bool)
      requires Valid()
      ensures found <==> Lookup(table, key).Some? && Lookup(table, key).value != null
    {
      var v := Get(key);
      found := v != null;
    }

    /** prefix_map_remove */
    method Remove(key: string) returns (removed: bool)
      requires Valid()
      modifies this, buckets, all
      ensures Valid() && all == old(all)
      ensures Follows(old(State(table, destroyed)), PrefixTable.Remove(key))
      ensures removed == old(Lookup(table, key)).Some?
    {
      hide Hash, Concat, IndexOfKey, TableOk, DropFrom, Linked, Apart;
      var h := HashString(key);
      var prev, entry, n := FindEntry(key, h);
      DropKeepsTable(table, key);
      EntriesApart();
      ChainLength(h);
      if entry == null {
        NothingToDrop(table, key);
        return false;
      }
      ChainValue(h, n);
      Unlink(h, n, prev, entry);
      DestroyValue(entry.value);
      return true;
    }

    /** The walk of prefix_map_clear along one chain. */
    method DestroyChain(head: Entry?, ghost es: seq<Entry>, ghost chain: Chain)
      requires Linked(head, es, chain)
      modifies this`destroyed
      ensures destroyed == if destroys then old(destroyed) + ValuesOf(chain) else old(destroyed)
    {
      hide ValuesOf;
      var entry := head;
      ghost var n := 0;
      NoValues();
      while entry != null
        invariant n <= |es| && entry == At(es, n)
        invariant destroyed == if destroys then old(destroyed) + ValuesOf(chain[..n]) else old(destroyed)
        decreases |es| - n
      {
        var next := entry.next;
        DestroyValue(entry.value);
        ValuesPush(chain, n);
        entry, n := next, n + 1;
      }
      assert chain[..n] == chain;
    }

    method ClearBucket(i: nat)
      requires Shape() && i < SIZE
      modifies this`destroyed, this`entries, this`table, buckets
      ensures Shape() && table == old(table)[i := []]
      ensures destroyed == if destroys then old(destroyed) + ValuesOf(old(table)[i]) else old(destroyed)
    {
      hide ValuesOf, Linked;
      DestroyChain(buckets[i], entries[i], table[i]);
      buckets[i] := null;
      NoLinks();
      entries, table := entries[i := []], table[i := []];
    }

    /** prefix_map_clear */
    method Clear()
      requires Valid()
      modifies this, buckets
      ensures Valid()
      ensures Follows(old(State(table, destroyed)), PrefixTable.Clear)
    {
      hide ValuesOf, Concat, TableOk, Shape;
      TableSize();
      ClearBuckets();
      count := 0;
      EmptyAgrees();
    }

    method ClearBuckets()
      requires Shape() && |table| == SIZE
      modifies this`destroyed, this`entries, this`table, buckets
      ensures Shape() && table == Empty()
      ensures destroyed == if destroys then old(destroyed) + ValuesOf(Concat(old(table))) else old(destroyed)
    {
      hide ValuesOf, Concat, Shape, Cleared, EmptyChains;
      ghost var t := table;
      ClearedEnds(t);
      for i := 0 to SIZE
        invariant Shape() && |t| == SIZE && table == Cleared(t, i) && all == old(all)
        invariant destroyed == if destroys then old(destroyed) + ValuesOf(Concat(t[..i])) else old(destroyed)
      {
        ClearBucket(i);
        ClearedNext(t, i);
      }
    }

    lemma TableSize()
      requires Valid()
      ensures |table| == SIZE
    {
    }

    /** prefix_map_find_prefix */
    method FindPrefix(prefix: string) returns (match_: Value?)
      requires Valid()
      ensures RightAnswer(Concat(table), prefix, match_) <==> Answerable(Concat(table), prefix)
      ensures match_ == Search(Concat(table), prefix).value
    {
      hide Search, Consider, Answerable, RightAnswer, Linked, Concat, TableOk;
      var best, bestLen: nat := null, 0;
      SearchNothing(prefix);
      assert table[..0] == [] && Concat<Pair>([]) == [] by { ConcatOfNone(); }
      for i := 0 to SIZE
        invariant Search(Concat(table[..i]), prefix) == Best(best, bestLen)
      {
        ghost var before := Concat(table[..i]);
        var entry := buckets[i];
        ghost var n := 0;
        StartOfChain(i);
        assert before + table[i][..0] == before;
        while entry != null
          invariant n <= |entries[i]| && |entries[i]| == |table[i]| && entry == At(entries[i], n)
          invariant Search(before + table[i][..n], prefix) == Best(best, bestLen)
          decreases |entries[i]| - n
        {
          ChainStep(i, n);
          SearchPush(before, table[i], n, prefix);
          var keyLen := |entry.key|;
          if prefix <= entry.key && (best == null || keyLen == |prefix| || (bestLen > keyLen && keyLen >= |prefix|)) {
            ConsiderTakes(Best(best, bestLen), table[i][n], prefix);
            best, bestLen := entry.value, |entry.key|;
          } else {
            ConsiderKeeps(Best(best, bestLen), table[i][n], prefix);
          }
          entry, n := entry.next, n + 1;
        }
        assert table[i][..n] == table[i];
        ConcatNext(table, i);
      }
      assert table[..SIZE] == table;
      TableKeysUnique(table);
      SearchRightIff(Concat(table), prefix);
      return best;
    }

    lemma StartOfChain(i: nat)
      requires Shape() && i < SIZE
      ensures buckets[i] == At(entries[i], 0) && |entries[i]| == |table[i]|
    {
      assert Linked(buckets[i], entries[i], table[i]);
    }

    lemma ChainStep(i: nat, n: nat)
      requires Shape() && i < SIZE && n < |entries[i]|
      ensures n < |table[i]| && entries[i][n].next == At(entries[i], n + 1)
      ensures Pair(entries[i][n].key, entries[i][n].value) == table[i][n]
    {
      assert Linked(buckets[i], entries[i], table[i]);
    }

    lemma ChainValue(h: nat, n: nat)
      requires Shape() && h < SIZE && n < |entries[h]|
      ensures n < |table[h]| && entries[h][n].value == table[h][n].value && entries[h][n].key == table[h][n].key
    {
      assert Linked(buckets[h], entries[h], table[h]);
    }

    lemma ChainLength(h: nat)
      requires Shape() && h < SIZE
      ensures |entries[h]| == |table[h]|
    {
      assert Linked(buckets[h], entries[h], table[h]);
    }
  }

  /** The first i buckets emptied. */
  ghost function Cleared(t: Table, i: nat): Table
    requires i <= |t|
  {
    EmptyChains(i) + t[i..]
  }

  lemma ClearedEnds(t: Table)
    requires |t| == SIZE
    ensures Cleared(t, 0) == t && Cleared(t, SIZE) == Empty()
    ensures ValuesOf(Concat(t[..0])) == [] && Concat(t[..SIZE]) == Concat(t)
  {
    hide ValuesOf, Concat;
    ConcatOfNone();
    NoValues();
    assert t[..0] == [] && t[..SIZE] == t;
  }

  lemma NoLinks()
    ensures Linked(null, [], [])
  {
  }

  lemma ClearedNext(t: Table, i: nat)
    requires i < |t|
    ensures Cleared(t, i)[i] == t[i] && Cleared(t, i)[i := []] == Cleared(t, i + 1)
    ensures ValuesOf(Concat(t[..i + 1])) == ValuesOf(Concat(t[..i])) + ValuesOf(t[i])
  {
    hide ValuesOf, Concat;
    ConcatNext(t, i);
    ValuesConcat(Concat(t[..i]), t[i]);
  }

  lemma ConcatOfNone()
    ensures Concat<Pair>([]) == []
  {
  }

  lemma ConcatNext(t: Table, i: nat)
    requires i < |t|
    ensures Concat(t[..i + 1]) == Concat(t[..i]) + t[i]
  {
    assert t[..i + 1] == t[..i] + [t[i]];
    ConcatAppend(t[..i], [t[i]]);
    assert [t[i]][1..] == [] && t[i] + [] == t[i];
  }

  lemma ValuesPush(chain: Chain, n: nat)
    requires n < |chain|
    ensures ValuesOf(chain[..n + 1]) == ValuesOf(chain[..n]) + Destroy(chain[n].value)
  {
    assert chain[..n + 1] == chain[..n] + [chain[n]];
    ValuesConcat(chain[..n], [chain[n]]);
  }

  lemma SearchPush(before: Chain, chain: Chain, n: nat, prefix: string)
    requires n < |chain|
    ensures Search(before + chain[..n + 1], prefix) == Consider(Search(before + chain[..n], prefix), chain[n], prefix)
  {
    hide Consider;
    var es := before + chain[..n + 1];
    assert es[..|es| - 1] == before + chain[..n] && es[|es| - 1] == chain[n];
  }

  lemma ConsiderTakes(best: Best, e: Pair, prefix: string)
    requires prefix <= e.key && (best.value == null || |e.key| == |prefix| || best.len > |e.key|)
    ensures Consider(best, e, prefix) == Best(e.value, |e.key|)
  {
  }

  lemma ConsiderKeeps(best: Best, e: Pair, prefix: string)
    requires !(prefix <= e.key && (best.value == null || |e.key| == |prefix| || best.len > |e.key|))
    ensures Consider(best, e, prefix) == best
  {
  }

  /** No key is in the table twice. */
  lemma TableKeysUnique(t: Table)
    requires TableOk(t)
    ensures UniqueKeys(Concat(t))
  {
    FirstKeysUnique(t, SIZE);
    assert t[..SIZE] == t;
  }

  lemma {:induction false} FirstKeysUnique(t: Table, i: nat)
    requires TableOk(t) && i <= SIZE
    ensures UniqueKeys(Concat(t[..i]))
    ensures forall k :: 0 <= k < |Concat(t[..i])| ==> Hash(Concat(t[..i])[k].key) < i
  {
    hide Hash, Concat;
    if i == 0 {
      assert t[..0] == [];
      ConcatOfNone();
    } else {
      FirstKeysUnique(t, i - 1);
      ConcatNext(t, i - 1);
      assert ChainOk(t[i - 1], i - 1);
    }
  }

  lemma NothingToDrop(t: Table, key: string)
    requires |t| == SIZE && IndexOfKey(t[Hash(key)], key) == |t[Hash(key)]|
    ensures DropFrom(t[Hash(key)], key) == t[Hash(key)] && Displaced(t[Hash(key)], key) == []
    ensures t[Hash(key) := t[Hash(key)]] == t
  {
    hide Hash;
  }

  // ---------------------------------------------------------------------------
  // One chain
  // ---------------------------------------------------------------------------

  method ChainSet(ghost head: Entry?, ghost es: seq<Entry>, ghost chain: Chain, ghost n: nat,
                  entry: Entry, value: Value?)
    requires Linked(head, es, chain) && n < |es| && entry == es[n]
    requires forall k :: 0 <= k < |es| && k != n ==> es[k] != es[n]
    modifies entry
    ensures n < |chain| && Linked(head, es, chain[n := Pair(entry.key, value)])
  {
    entry.value := value;
  }

  lemma LinkedPush(entry: Entry, es: seq<Entry>, chain: Chain)
    requires Linked(entry.next, es, chain)
    ensures Linked(entry, [entry] + es, [Pair(entry.key, entry.value)] + chain)
  {
    var es', chain' := [entry] + es, [Pair(entry.key, entry.value)] + chain;
    forall k | 0 <= k < |es'|
      ensures es'[k].key == chain'[k].key && es'[k].value == chain'[k].value && es'[k].next == At(es', k + 1)
    {
      if k > 0 {
        assert es'[k] == es[k - 1] && chain'[k] == chain[k - 1];
      }
    }
  }

  /** A chain whose entry n is bypassed. */
  lemma Relinked(first: Entry?, es: seq<Entry>, chain: Chain, n: nat)
    requires |es| == |chain| && n < |es| && first == At(es, if n == 0 then 1 else 0)
    requires forall k :: 0 <= k < |es| ==> es[k].key == chain[k].key && es[k].value == chain[k].value
    requires forall k :: 0 <= k < |es| && k + 1 != n ==> es[k].next == At(es, k + 1)
    requires n > 0 ==> es[n - 1].next == At(es, n + 1)
    ensures Linked(first, es[..n] + es[n + 1..], chain[..n] + chain[n + 1..])
  {
    var es', chain' := es[..n] + es[n + 1..], chain[..n] + chain[n + 1..];
    assert first == At(es', 0);
    forall k | 0 <= k < |es'|
      ensures es'[k].key == chain'[k].key && es'[k].value == chain'[k].value && es'[k].next == At(es', k + 1)
    {
      hide At;
      AtWithout(es, n, k + 1);
      assert es'[k] == es[if k < n then k else k + 1];
      assert chain'[k] == chain[if k < n then k else k + 1];
    }
  }

  lemma AtWithout(es: seq<Entry>, n: nat, k: nat)
    requires n < |es|
    ensures At(es[..n] + es[n + 1..], k) == At(es, if k < n then k else k + 1)
  {
  }

  /** Unlink entry n; the chain then starts at `first`. */
  method ChainUnlink(head: Entry?, ghost es: seq<Entry>, ghost chain: Chain, ghost n: nat, prev: Entry?, entry: Entry)
    returns (first: Entry?)
    requires Linked(head, es, chain) && n < |es| && entry == es[n]
    requires prev == if n > 0 then es[n - 1] else null
    requires n > 0 ==> forall k :: 0 <= k < |es| && k != n - 1 ==> es[k] != es[n - 1]
    modifies if prev == null then {} else {prev}
    ensures n < |chain| && Linked(first, es[..n] + es[n + 1..], chain[..n] + chain[n + 1..])
    ensures prev != null ==> first == head
    ensures entry.value == old(entry.value)
  {
    first := head;
    if prev != null {
      prev.next := entry.next;
    } else {
      first := entry.next;
    }
    Relinked(first, es, chain, n);
  }
}
