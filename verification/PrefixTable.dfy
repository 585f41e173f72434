/**
  The chained hash table of src/bas/util/prefix_map.c as a value: 128 lists of key/value pairs, in
  chain order. PrefixMap.dfy proves the linked code against it.
 */
module PrefixTable {
  import opened CText

  /** What a value pointer points to. */
  class Value {
    const text: string

    constructor (text: string)
      ensures this.text == text
    {
      this.text := text;
    }
  }

  datatype Pair = Pair(key: string, value: Value?)

  type Chain = seq<Pair>
  type Table = seq<Chain>

  const SIZE: nat := 128

  // ---------------------------------------------------------------------------
  // The hash function
  // ---------------------------------------------------------------------------

  /** The loop of hash_string from some hash value, in 32-bit unsigned arithmetic. */
  function HashFrom(hash: nat, s: string): nat
    decreases s
  {
    if s == "" then hash else HashFrom((hash * 33 + CharInt(s[0])) % 0x1_0000_0000, s[1..])
  }

  function Hash(s: string): (h: nat)
    ensures h < SIZE
  {
    HashFrom(5381, s) % SIZE
  }

  /** The same modulo 128 throughout, with the characters as unsigned bytes. */
  function SmallHashFrom(hash: nat, s: string): nat
    decreases s
  {
    if s == "" then hash else SmallHashFrom((hash * 33 + s[0] as int) % SIZE, s[1..])
  }

  lemma ModStep(h: nat, g: nat, c: char)
    requires h % SIZE == g % SIZE
    ensures (h * 33 + CharInt(c)) % 0x1_0000_0000 % SIZE == (g * 33 + c as int) % SIZE
  {
    var a, b := h * 33 + CharInt(c), g * 33 + c as int;
    var q := a / 0x1_0000_0000;
    assert a == q * 0x1_0000_0000 + a % 0x1_0000_0000;
    var k := h / SIZE - g / SIZE;
    assert h == g + k * SIZE;
    var e := if c as int < 128 then 0 else 2;
    assert a % 0x1_0000_0000 == b + (33 * k - e - q * 0x200_0000) * SIZE;
    SameMod(b, 33 * k - e - q * 0x200_0000);
  }

  lemma SameMod(b: nat, k: int)
    ensures (b + k * SIZE) % SIZE == b % SIZE
  {
  }

  /** Bucket numbers do not depend on 32-bit wrap-around or on the signedness of char. */
  lemma {:induction false} HashIsPortable(s: string, h: nat, g: nat)
    requires h % SIZE == g % SIZE
    ensures HashFrom(h, s) % SIZE == SmallHashFrom(g, s) % SIZE
    decreases s
  {
    if s != "" {
      ModStep(h, g, s[0]);
      HashIsPortable(s[1..], (h * 33 + CharInt(s[0])) % 0x1_0000_0000, (g * 33 + s[0] as int) % SIZE);
    }
  }

  // ---------------------------------------------------------------------------
  // Chains
  // ---------------------------------------------------------------------------

  /** Index of a key, or the length of the chain. */
  function IndexOfKey(chain: Chain, key: string): (i: nat)
    ensures i <= |chain|
    ensures i < |chain| ==> chain[i].key == key
    ensures forall k :: 0 <= k < i ==> chain[k].key != key
  {
    if chain == [] || chain[0].key == key then 0 else 1 + IndexOfKey(chain[1..], key)
  }

  /** Replace in place, or put in front. */
  function PutIn(chain: Chain, key: string, value: Value?): Chain {
    var i := IndexOfKey(chain, key);
    if i < |chain| then chain[i := Pair(key, value)] else [Pair(key, value)] + chain
  }

  function DropFrom(chain: Chain, key: string): Chain {
    var i := IndexOfKey(chain, key);
    if i < |chain| then chain[..i] + chain[i + 1..] else chain
  }

  function ValueIn(chain: Chain, key: string): Option<Value?> {
    var i := IndexOfKey(chain, key);
    if i < |chain| then Some(chain[i].value) else None
  }

  /** A call of the destroy function, unless the pointer is NULL. */
  function Destroy(v: Value?): seq<Value> {
    if v == null then [] else [v]
  }

  /** The old value that a put or a removal destroys. */
  function Displaced(chain: Chain, key: string): seq<Value> {
    var i := IndexOfKey(chain, key);
    if i < |chain| then Destroy(chain[i].value) else []
  }

  function ValuesOf(chain: Chain): seq<Value> {
    if chain == [] then [] else Destroy(chain[0].value) + ValuesOf(chain[1..])
  }

  predicate UniqueKeys(chain: Chain) {
    forall k, l :: 0 <= k < l < |chain| ==> chain[k].key != chain[l].key
  }

  predicate ChainOk(chain: Chain, i: nat) {
    UniqueKeys(chain) && forall k :: 0 <= k < |chain| ==> Hash(chain[k].key) == i
  }

  predicate TableOk(t: Table) {
    |t| == SIZE && forall i :: 0 <= i < SIZE ==> ChainOk(t[i], i)
  }

  lemma PutKeepsOrder(chain: Chain, key: string, value: Value?, i: nat)
    requires ChainOk(chain, i) && Hash(key) == i
    ensures ChainOk(PutIn(chain, key, value), i)
    ensures |PutIn(chain, key, value)| == |chain| + if ValueIn(chain, key).None? then 1 else 0
  {
    hide Hash;
    var n, chain' := IndexOfKey(chain, key), PutIn(chain, key, value);
    assert n == |chain| ==> forall k :: 1 <= k < |chain'| ==> chain'[k] == chain[k - 1];
    assert n < |chain| ==> forall k :: 0 <= k < |chain'| ==> chain'[k].key == chain[k].key;
  }

  lemma PutFinds(chain: Chain, key: string, value: Value?, k: string)
    ensures ValueIn(PutIn(chain, key, value), k) == if k == key then Some(value) else ValueIn(chain, k)
  {
    hide IndexOfKey;
    var n, j, chain' := IndexOfKey(chain, key), IndexOfKey(chain, k), PutIn(chain, key, value);
    if n < |chain| {
      KeyIsAt(chain', k, if k == key then n else j);
    } else {
      assert forall l :: 1 <= l < |chain'| ==> chain'[l] == chain[l - 1];
      KeyIsAt(chain', k, if k == key then 0 else j + 1);
    }
  }

  /** Every value stays in the chain or is destroyed, once. */
  lemma PutConserves(chain: Chain, key: string, value: Value?)
    ensures multiset(Displaced(chain, key)) + multiset(ValuesOf(PutIn(chain, key, value)))
      == multiset(ValuesOf(chain)) + multiset(Destroy(value))
  {
    hide IndexOfKey, Destroy;
    var n, chain' := IndexOfKey(chain, key), PutIn(chain, key, value);
    if n < |chain| {
      hide ValuesOf;
      ValuesAt(chain, n);
      ValuesAt(chain', n);
      assert chain'[..n] == chain[..n] && chain'[n + 1..] == chain[n + 1..];
    } else {
      assert chain'[1..] == chain;
    }
  }

  lemma KeyIsAt(chain: Chain, key: string, i: nat)
    requires i <= |chain| && (i < |chain| ==> chain[i].key == key)
    requires forall k :: 0 <= k < i ==> chain[k].key != key
    ensures IndexOfKey(chain, key) == i
  {
  }

  lemma {:induction false} ValuesAt(chain: Chain, n: nat)
    requires n < |chain|
    decreases n
    ensures ValuesOf(chain) == ValuesOf(chain[..n]) + Destroy(chain[n].value) + ValuesOf(chain[n + 1..])
  {
    hide Destroy;
    if n == 0 {
      assert chain[..0] == [];
    } else {
      assert chain[..n] == [chain[0]] + chain[1..][..n - 1];
      ValuesAt(chain[1..], n - 1);
      assert chain[1..][..n - 1] == chain[..n][1..] && chain[1..][n..] == chain[n + 1..];
    }
  }

  lemma {:induction false} ValuesConcat(a: Chain, b: Chain)
    ensures ValuesOf(a + b) == ValuesOf(a) + ValuesOf(b)
  {
    if a == [] {
      assert a + b == b;
    } else {
      assert (a + b)[1..] == a[1..] + b;
      ValuesConcat(a[1..], b);
    }
  }

  lemma DropKeepsOrder(chain: Chain, key: string, i: nat)
    requires ChainOk(chain, i)
    ensures ChainOk(DropFrom(chain, key), i)
    ensures |DropFrom(chain, key)| == |chain| - if ValueIn(chain, key).Some? then 1 else 0
  {
    hide Hash;
    var n, chain' := IndexOfKey(chain, key), DropFrom(chain, key);
    assert n < |chain| ==> forall k :: 0 <= k < |chain'| ==> chain'[k] == chain[if k < n then k else k + 1];
  }

  lemma DropFinds(chain: Chain, key: string, k: string)
    requires UniqueKeys(chain)
    ensures ValueIn(DropFrom(chain, key), k) == if k == key then None else ValueIn(chain, k)
  {
    hide IndexOfKey;
    var n, j, chain' := IndexOfKey(chain, key), IndexOfKey(chain, k), DropFrom(chain, key);
    if n < |chain| {
      assert forall l :: 0 <= l < |chain'| ==> chain'[l] == chain[if l < n then l else l + 1];
      KeyIsAt(chain', k, if k == key then |chain'| else if j < n then j else j - 1);
    }
  }

  lemma DropConserves(chain: Chain, key: string)
    ensures multiset(Displaced(chain, key)) + multiset(ValuesOf(DropFrom(chain, key))) == multiset(ValuesOf(chain))
  {
    hide IndexOfKey, Destroy, ValuesOf;
    var n := IndexOfKey(chain, key);
    if n < |chain| {
      ValuesAt(chain, n);
      ValuesConcat(chain[..n], chain[n + 1..]);
      Regroup(ValuesOf(chain[..n]), Destroy(chain[n].value), ValuesOf(chain[n + 1..]));
    }
  }

  lemma Regroup(a: seq<Value>, v: seq<Value>, b: seq<Value>)
    ensures multiset(v) + multiset(a + b) == multiset(a + v + b)
  {
  }

  // ---------------------------------------------------------------------------
  // The table under a run of operations
  // ---------------------------------------------------------------------------

  datatype Op = Add(key: string, value: Value?) | Remove(key: string) | Clear

  /** A table, and the calls of the destroy function so far. */
  datatype State = State(table: Table, destroyed: seq<Value>)

  function EmptyChains(n: nat): seq<Chain> {
    seq(n, _ => [])
  }

  function Empty(): Table {
    EmptyChains(SIZE)
  }

  function Step(s: State, op: Op): State
    requires |s.table| == SIZE
  {
    match op
    case Add(key, value) =>
      var h := Hash(key);
      State(s.table[h := PutIn(s.table[h], key, value)], s.destroyed + Displaced(s.table[h], key))
    case Remove(key) =>
      var h := Hash(key);
      State(s.table[h := DropFrom(s.table[h], key)], s.destroyed + Displaced(s.table[h], key))
    case Clear => State(Empty(), s.destroyed + ValuesOf(Concat(s.table)))
  }

  function Run(ops: seq<Op>): (s: State)
    ensures |s.table| == SIZE
  {
    if ops == [] then State(Empty(), []) else Step(Run(ops[..|ops| - 1]), ops[|ops| - 1])
  }

  function Lookup(t: Table, key: string): Option<Value?>
    requires |t| == SIZE
  {
    ValueIn(t[Hash(key)], key)
  }

  /** The same run on a mathematical map. */
  function MapAfter(ops: seq<Op>): map<string, Value?> {
    if ops == [] then map[]
    else
      var m := MapAfter(ops[..|ops| - 1]);
      match ops[|ops| - 1]
      case Add(key, value) => m[key := value]
      case Remove(key) => m - {key}
      case Clear => map[]
  }

  function Incoming(op: Op): seq<Value> {
    match op
    case Add(_, value) => Destroy(value)
    case _ => []
  }

  /** The non-NULL values handed in by a run. */
  function Added(ops: seq<Op>): seq<Value> {
    if ops == [] then []
    else Added(ops[..|ops| - 1]) + Incoming(ops[|ops| - 1])
  }

  /** The table holds exactly the map. */
  ghost predicate Agrees(t: Table, m: map<string, Value?>) {
    && TableOk(t)
    && (forall k: string :: Lookup(t, k) == if k in m then Some(m[k]) else None)
    && |Concat(t)| == |m|
  }

  lemma {:induction false} ConcatAt<T>(t: seq<seq<T>>, i: nat)
    requires i < |t|
    ensures Concat(t) == Concat(t[..i]) + t[i] + Concat(t[i + 1..])
  {
    assert t == t[..i] + [t[i]] + t[i + 1..];
    ConcatAppend(t[..i] + [t[i]], t[i + 1..]);
    ConcatAppend(t[..i], [t[i]]);
    assert [t[i]][1..] == [] && t[i] + [] == t[i];
  }

  lemma ConcatUpdate<T>(t: seq<seq<T>>, i: nat, chain: seq<T>)
    requires i < |t|
    ensures Concat(t[i := chain]) == Concat(t[..i]) + chain + Concat(t[i + 1..])
  {
    ConcatAt(t[i := chain], i);
    assert t[i := chain][..i] == t[..i] && t[i := chain][i + 1..] == t[i + 1..];
  }

  /** One bucket changes; the others' values and entries stay. */
  lemma UpdateConserves(t: Table, i: nat, chain: Chain)
    requires i < |t|
    ensures multiset(ValuesOf(Concat(t[i := chain]))) + multiset(ValuesOf(t[i]))
      == multiset(ValuesOf(Concat(t))) + multiset(ValuesOf(chain))
    ensures |Concat(t[i := chain])| + |t[i]| == |Concat(t)| + |chain|
  {
    hide ValuesOf, Concat;
    ConcatAt(t, i);
    ConcatUpdate(t, i, chain);
    ValuesConcat(Concat(t[..i]), t[i]);
    ValuesConcat(Concat(t[..i]) + t[i], Concat(t[i + 1..]));
    ValuesConcat(Concat(t[..i]), chain);
    ValuesConcat(Concat(t[..i]) + chain, Concat(t[i + 1..]));
  }

  lemma {:induction false} ConcatOfEmpty(n: nat)
    ensures Concat(EmptyChains(n)) == []
  {
    if n > 0 {
      ConcatOfEmpty(n - 1);
      assert EmptyChains(n)[1..] == EmptyChains(n - 1);
    }
  }

  lemma EmptyAgrees()
    ensures Agrees(Empty(), map[])
  {
    hide Hash;
    ConcatOfEmpty(SIZE);
  }

  lemma UpdateTableOk(t: Table, i: nat, chain: Chain)
    requires TableOk(t) && i < SIZE && ChainOk(chain, i)
    ensures TableOk(t[i := chain])
  {
    hide ChainOk;
  }

  lemma UpdateLookup(t: Table, key: string, chain: Chain, k: string)
    requires |t| == SIZE
    ensures Lookup(t[Hash(key) := chain], k) == if Hash(k) == Hash(key) then ValueIn(chain, k) else Lookup(t, k)
  {
    hide Hash, ValueIn;
  }

  /** What one addition does to the bucket, and to the number of entries. */
  lemma PutKeepsTable(t: Table, key: string, value: Value?)
    requires TableOk(t)
    ensures var h := Hash(key);
      var n := IndexOfKey(t[h], key);
      var chain := if n < |t[h]| then t[h][n := Pair(key, value)] else [Pair(key, value)] + t[h];
      && PutIn(t[h], key, value) == chain && TableOk(t[h := chain])
      && |Concat(t[h := chain])| == |Concat(t)| + if n < |t[h]| then 0 else 1
  {
    hide Hash, IndexOfKey, Concat, TableOk, ChainOk;
    var chain := BucketOf(t, key);
    var h := Hash(key);
    PutKeepsOrder(chain, key, value, h);
    UpdateTableOk(t, h, PutIn(chain, key, value));
    UpdateConserves(t, h, PutIn(chain, key, value));
  }

  lemma DropKeepsTable(t: Table, key: string)
    requires TableOk(t)
    ensures var h := Hash(key);
      var n := IndexOfKey(t[h], key);
      n < |t[h]| ==>
        var chain := t[h][..n] + t[h][n + 1..];
        && DropFrom(t[h], key) == chain && TableOk(t[h := chain])
        && |Concat(t[h := chain])| == |Concat(t)| - 1
  {
    hide Hash, IndexOfKey, Concat, TableOk, ChainOk;
    var chain := BucketOf(t, key);
    var h := Hash(key);
    DropKeepsOrder(chain, key, h);
    UpdateTableOk(t, h, DropFrom(chain, key));
    UpdateConserves(t, h, DropFrom(chain, key));
  }

  lemma AddAgrees(s: State, m: map<string, Value?>, key: string, value: Value?)
    requires Agrees(s.table, m)
    ensures Agrees(Step(s, Add(key, value)).table, m[key := value])
  {
    hide Hash, PutIn, ValueIn, ChainOk, Concat, Displaced, TableOk, Lookup, UniqueKeys, IndexOfKey;
    var h := Hash(key);
    var chain := BucketOf(s.table, key);
    var t' := s.table[h := PutIn(chain, key, value)];
    PutKeepsTable(s.table, key, value);
    LookupInBucket(s.table, key, key);
    FoundIff(chain, key);
    forall k: string
      ensures Lookup(t', k) == if k in m[key := value] then Some(m[key := value][k]) else None
    {
      PutFinds(chain, key, value, k);
      UpdateLookup(s.table, key, PutIn(chain, key, value), k);
      LookupInBucket(s.table, key, k);
    }
  }

  lemma FoundIff(chain: Chain, key: string)
    ensures ValueIn(chain, key).Some? <==> IndexOfKey(chain, key) < |chain|
  {
  }

  /** A key's chain, which is in order. */
  lemma BucketOf(t: Table, key: string) returns (chain: Chain)
    requires TableOk(t)
    ensures |t| == SIZE && chain == t[Hash(key)] && ChainOk(chain, Hash(key)) && UniqueKeys(chain)
  {
    hide Hash;
    chain := t[Hash(key)];
    ChainHasUniqueKeys(chain, Hash(key));
  }

  lemma LookupInBucket(t: Table, key: string, k: string)
    requires |t| == SIZE
    ensures Hash(k) == Hash(key) ==> Lookup(t, k) == ValueIn(t[Hash(key)], k)
  {
  }

  lemma RemoveAgrees(s: State, m: map<string, Value?>, key: string)
    requires Agrees(s.table, m)
    ensures Agrees(Step(s, Remove(key)).table, m - {key})
  {
    hide Hash, DropFrom, ValueIn, ChainOk, Concat, Displaced, TableOk, Lookup, UniqueKeys;
    var h := Hash(key);
    var chain := BucketOf(s.table, key);
    var t' := s.table[h := DropFrom(chain, key)];
    DropKeepsOrder(chain, key, h);
    UpdateTableOk(s.table, h, DropFrom(chain, key));
    UpdateConserves(s.table, h, DropFrom(chain, key));
    SizeWithout(m, key);
    forall k: string
      ensures Lookup(t', k) == if k in m - {key} then Some((m - {key})[k]) else None
    {
      DropFinds(chain, key, k);
      UpdateLookup(s.table, key, DropFrom(chain, key), k);
      LookupInBucket(s.table, key, k);
    }
    LookupInBucket(s.table, key, key);
  }

  lemma ChainHasUniqueKeys(chain: Chain, i: nat)
    requires ChainOk(chain, i)
    ensures UniqueKeys(chain)
  {
  }

  lemma SizeWithout(m: map<string, Value?>, key: string)
    ensures |m - {key}| == if key in m then |m| - 1 else |m|
  {
    if key in m {
      assert m == (m - {key})[key := m[key]];
    } else {
      assert m - {key} == m;
    }
  }

  /** After any run of additions, removals and clears the table is the map the run describes. */
  lemma {:induction false} RunAgrees(ops: seq<Op>)
    ensures Agrees(Run(ops).table, MapAfter(ops))
  {
    hide Agrees, Step;
    if ops == [] {
      EmptyAgrees();
    } else {
      var s := Run(ops[..|ops| - 1]);
      var m := MapAfter(ops[..|ops| - 1]);
      RunAgrees(ops[..|ops| - 1]);
      match ops[|ops| - 1]
      case Add(key, value) => AddAgrees(s, m, key, value);
      case Remove(key) => RemoveAgrees(s, m, key);
      case Clear => ClearAgrees(s);
    }
  }

  lemma ClearAgrees(s: State)
    requires |s.table| == SIZE
    ensures Agrees(Step(s, Clear).table, map[])
  {
    EmptyAgrees();
  }

  /** Conservation in one bucket is conservation in the table. */
  lemma BucketConserves(t: Table, i: nat, chain: Chain, d: seq<Value>, added: seq<Value>)
    requires i < |t|
    requires multiset(d) + multiset(ValuesOf(chain)) == multiset(ValuesOf(t[i])) + multiset(added)
    ensures multiset(d) + multiset(ValuesOf(Concat(t[i := chain]))) == multiset(ValuesOf(Concat(t))) + multiset(added)
  {
    hide ValuesOf, Concat;
    UpdateConserves(t, i, chain);
    Cancel(multiset(d), multiset(ValuesOf(chain)), multiset(ValuesOf(t[i])),
      multiset(ValuesOf(Concat(t[i := chain]))), multiset(ValuesOf(Concat(t))), multiset(added));
  }

  lemma Cancel(d: multiset<Value>, a: multiset<Value>, b: multiset<Value>,
               x: multiset<Value>, y: multiset<Value>, e: multiset<Value>)
    requires d + a == b + e && x + b == y + a
    ensures d + x == y + e
  {
    forall v: Value
      ensures (d + x)[v] == (y + e)[v]
    {
      assert (d + a)[v] == (b + e)[v] && (x + b)[v] == (y + a)[v];
    }
  }

  lemma AddToBoth(x: multiset<Value>, a: multiset<Value>, b: multiset<Value>, c: multiset<Value>, d: multiset<Value>)
    requires a + b == c + d
    ensures x + a + b == x + c + d
  {
    assert x + a + b == x + (a + b);
    assert x + c + d == x + (c + d);
  }

  lemma StepConserves(s: State, op: Op)
    requires |s.table| == SIZE
    ensures var s' := Step(s, op);
      multiset(s'.destroyed) + multiset(ValuesOf(Concat(s'.table)))
      == multiset(s.destroyed) + multiset(ValuesOf(Concat(s.table)))
         + multiset(Incoming(op))
  {
    hide Hash, PutIn, DropFrom, Displaced, ValuesOf, Concat, Destroy;
    match op
    case Add(key, value) =>
      var chain := s.table[Hash(key)];
      PutConserves(chain, key, value);
      BucketConserves(s.table, Hash(key), PutIn(chain, key, value), Displaced(chain, key), Incoming(op));
      AddToBoth(multiset(s.destroyed), multiset(Displaced(chain, key)), multiset(ValuesOf(Concat(Step(s, op).table))),
        multiset(ValuesOf(Concat(s.table))), multiset(Incoming(op)));
    case Remove(key) =>
      var chain := s.table[Hash(key)];
      DropConserves(chain, key);
      BucketConserves(s.table, Hash(key), DropFrom(chain, key), Displaced(chain, key), Incoming(op));
      AddToBoth(multiset(s.destroyed), multiset(Displaced(chain, key)), multiset(ValuesOf(Concat(Step(s, op).table))),
        multiset(ValuesOf(Concat(s.table))), multiset(Incoming(op)));
    case Clear =>
      ConcatOfEmpty(SIZE);
      NoValues();
  }

  lemma NoValues()
    ensures ValuesOf([]) == []
  {
  }

  /** Conservation: after any run, what was handed in is what was destroyed plus what is stored. */
  lemma {:induction false} RunConserves(ops: seq<Op>)
    ensures multiset(Run(ops).destroyed) + multiset(ValuesOf(Concat(Run(ops).table))) == multiset(Added(ops))
  {
    hide Step, ValuesOf, Concat;
    if ops == [] {
      ConcatOfEmpty(SIZE);
      NoValues();
    } else {
      RunConserves(ops[..|ops| - 1]);
      StepConserves(Run(ops[..|ops| - 1]), ops[|ops| - 1]);
    }
  }

  /**
    A value handed in once is destroyed at most once and never while it is stored; after a final
    clear it has been destroyed exactly once.
   */
  lemma DestroyedOnce(ops: seq<Op>, v: Value)
    requires multiset(Added(ops))[v] == 1
    ensures multiset(Run(ops).destroyed)[v] + multiset(ValuesOf(Concat(Run(ops).table)))[v] == 1
    ensures multiset(Run(ops + [Clear]).destroyed)[v] == 1
  {
    hide Step, ValuesOf, Concat, Run;
    RunConserves(ops);
    RunConserves(ops + [Clear]);
    assert (ops + [Clear])[..|ops|] == ops;
    ClearedIsEmpty(ops);
  }

  lemma ClearedIsEmpty(ops: seq<Op>)
    ensures ValuesOf(Concat(Run(ops + [Clear]).table)) == []
  {
    hide ValuesOf, Concat;
    assert (ops + [Clear])[..|ops|] == ops;
    ConcatOfEmpty(SIZE);
    NoValues();
  }

  // ---------------------------------------------------------------------------
  // Prefix search
  // ---------------------------------------------------------------------------

  /** The search variables best_match and best_match_len. */
  datatype Best = Best(value: Value?, len: nat)

  function Consider(best: Best, e: Pair, prefix: string): Best {
    if prefix <= e.key && (best.value == null || |e.key| == |prefix| || best.len > |e.key|)
    then Best(e.value, |e.key|) else best
  }

  function Search(entries: Chain, prefix: string): Best {
    if entries == [] then Best(null, 0)
    else Consider(Search(entries[..|entries| - 1], prefix), entries[|entries| - 1], prefix)
  }

  /** Entry i has a key that extends the prefix, and no such key is shorter. */
  predicate IsShortest(entries: Chain, prefix: string, i: nat)
    requires i < |entries|
  {
    && prefix <= entries[i].key
    && forall k :: 0 <= k < |entries| && prefix <= entries[k].key ==> |entries[i].key| <= |entries[k].key|
  }

  predicate Extended(entries: Chain, prefix: string) {
    exists k :: 0 <= k < |entries| && prefix <= entries[k].key
  }

  /** The value of a shortest key that extends the prefix, NULL if no key does. */
  ghost predicate RightAnswer(entries: Chain, prefix: string, v: Value?) {
    if Extended(entries, prefix) then
      exists i :: 0 <= i < |entries| && IsShortest(entries, prefix, i) && entries[i].value == v
    else v == null
  }

  /** Some shortest match has a non-NULL value, or every match is NULL. */
  ghost predicate Findable(entries: Chain, prefix: string) {
    || (exists i :: 0 <= i < |entries| && IsShortest(entries, prefix, i) && entries[i].value != null)
    || (forall k :: 0 <= k < |entries| && prefix <= entries[k].key ==> entries[k].value == null)
  }

  /** The search variables after some of the entries, when a shortest match is not NULL. */
  ghost predicate SearchInv(entries: Chain, n: nat, prefix: string, min: nat)
    requires n <= |entries|
  {
    var best := Search(entries[..n], prefix);
    && (best.value != null ==> Held(entries, n, prefix, best))
    && (best.value == null || best.len != min ==>
          forall k :: 0 <= k < n && prefix <= entries[k].key && |entries[k].key| == min ==> entries[k].value == null)
  }

  ghost predicate Held(entries: Chain, n: nat, prefix: string, best: Best)
    requires n <= |entries|
  {
    exists i :: 0 <= i < n && prefix <= entries[i].key && entries[i].value == best.value && |entries[i].key| == best.len
  }

  predicate MinLength(entries: Chain, prefix: string, min: nat) {
    forall k :: 0 <= k < |entries| && prefix <= entries[k].key ==> min <= |entries[k].key|
  }

  lemma SearchStep(entries: Chain, n: nat, prefix: string)
    requires n < |entries|
    ensures Search(entries[..n + 1], prefix) == Consider(Search(entries[..n], prefix), entries[n], prefix)
  {
    assert entries[..n + 1][..n] == entries[..n];
  }

  lemma {:induction false} SearchKeepsInv(entries: Chain, n: nat, prefix: string, min: nat)
    requires n <= |entries| && UniqueKeys(entries) && MinLength(entries, prefix, min)
    ensures SearchInv(entries, n, prefix, min)
  {
    hide Search;
    if n == 0 {
      SearchNothing(prefix);
      assert entries[..0] == [];
    } else {
      SearchKeepsInv(entries, n - 1, prefix, min);
      SearchStep(entries, n - 1, prefix);
      var was, e := Search(entries[..n - 1], prefix), entries[n - 1];
      var best := Consider(was, e, prefix);
      if best == was {
        if was.value != null {
          assert Held(entries, n, prefix, was);
        }
      } else {
        assert entries[n - 1].value == best.value && |entries[n - 1].key| == best.len;
        if was.value != null && was.len == min {
          ExactOnly(entries, n, prefix, was, min);
        }
      }
    }
  }

  lemma SearchNothing(prefix: string)
    ensures Search([], prefix) == Best(null, 0)
  {
  }

  /** A match of minimal length is never displaced. */
  lemma ExactOnly(entries: Chain, n: nat, prefix: string, was: Best, min: nat)
    requires 0 < n <= |entries| && UniqueKeys(entries) && MinLength(entries, prefix, min)
    requires was.value != null && was.len == min && Held(entries, n - 1, prefix, was)
    ensures Consider(was, entries[n - 1], prefix) == was
  {
    var e := entries[n - 1];
    var i :| 0 <= i < n - 1 && prefix <= entries[i].key && entries[i].value == was.value && |entries[i].key| == was.len;
    ExactIs(e.key, prefix);
    ExactIs(entries[i].key, prefix);
  }

  lemma ExactIs(key: string, prefix: string)
    ensures prefix <= key && |key| <= |prefix| ==> key == prefix
  {
  }

  /** A match of least length, if there is a match at all. */
  lemma {:induction false} ShortestExists(entries: Chain, prefix: string) returns (i: nat)
    requires Extended(entries, prefix)
    ensures i < |entries| && IsShortest(entries, prefix, i)
  {
    var n := |entries| - 1;
    var init, last := entries[..n], entries[n];
    if Extended(init, prefix) {
      i := ShortestExists(init, prefix);
      assert forall k :: 0 <= k < n ==> init[k] == entries[k];
      if prefix <= last.key && |last.key| < |entries[i].key| {
        i := n;
      }
    } else {
      assert forall k :: 0 <= k < n ==> init[k] == entries[k];
      i := n;
    }
  }

  /** The answer is right whatever the order of the entries, if the entries are Findable. */
  lemma {:induction false} FindableIsFound(entries: Chain, prefix: string)
    requires UniqueKeys(entries) && Findable(entries, prefix)
    ensures RightAnswer(entries, prefix, Search(entries, prefix).value)
  {
    hide Search;
    assert entries[..|entries|] == entries;
    var n := |entries|;
    if i :| 0 <= i < n && IsShortest(entries, prefix, i) && entries[i].value != null {
      var min := |entries[i].key|;
      SearchKeepsInv(entries, n, prefix, min);
      var best := Search(entries, prefix);
      assert Held(entries, n, prefix, best);
      var j :| 0 <= j < n && prefix <= entries[j].key && entries[j].value == best.value && |entries[j].key| == best.len;
      assert IsShortest(entries, prefix, j);
    } else {
      SearchKeepsInv(entries, n, prefix, 0);
      if Extended(entries, prefix) {
        var i := ShortestExists(entries, prefix);
      }
    }
  }

  /** Among the first n entries, a match that is not NULL and that no shorter NULL follows. */
  predicate Uncleared(entries: Chain, n: nat, prefix: string, i: nat) {
    && i < n <= |entries| && prefix <= entries[i].key && entries[i].value != null
    && forall j :: i < j < n && prefix <= entries[j].key && entries[j].value == null
         ==> |entries[i].key| <= |entries[j].key|
  }

  /** The search variables after n entries: NULL if all is cleared, else of the least length that is not. */
  ghost predicate HoldsLeast(entries: Chain, n: nat, prefix: string, best: Best) {
    if best.value == null then forall i: nat :: !Uncleared(entries, n, prefix, i)
    else
      && (exists i: nat :: Uncleared(entries, n, prefix, i) && |entries[i].key| == best.len)
      && (forall i: nat :: Uncleared(entries, n, prefix, i) ==> best.len <= |entries[i].key|)
  }

  /** One more entry clears what is longer if it is a NULL match, and is uncleared itself if it is another match. */
  lemma UnclearedNext(entries: Chain, n: nat, prefix: string, i: nat)
    requires n < |entries|
    ensures var e := entries[n];
      Uncleared(entries, n + 1, prefix, i) <==>
        if i == n then prefix <= e.key && e.value != null
        else Uncleared(entries, n, prefix, i) && (prefix <= e.key && e.value == null ==> |entries[i].key| <= |e.key|)
  {
  }

  lemma StepHoldsLeast(entries: Chain, n: nat, prefix: string, best: Best)
    requires n < |entries| && UniqueKeys(entries) && HoldsLeast(entries, n, prefix, best)
    ensures HoldsLeast(entries, n + 1, prefix, Consider(best, entries[n], prefix))
  {
    hide UniqueKeys;
    var e := entries[n];
    forall i: nat
      ensures Uncleared(entries, n + 1, prefix, i) <==>
        if i == n then prefix <= e.key && e.value != null
        else Uncleared(entries, n, prefix, i) && (prefix <= e.key && e.value == null ==> |entries[i].key| <= |e.key|)
    {
      UnclearedNext(entries, n, prefix, i);
    }
    if best.value != null {
      var i: nat :| Uncleared(entries, n, prefix, i) && |entries[i].key| == best.len;
      OtherKey(entries, n, prefix, i);
      assert Uncleared(entries, n + 1, prefix, i) || (prefix <= e.key && |e.key| < best.len);
    }
    assert prefix <= e.key && e.value != null ==> Uncleared(entries, n + 1, prefix, n);
  }

  /** Only one match is as short as the prefix. */
  lemma OtherKey(entries: Chain, n: nat, prefix: string, i: nat)
    requires n < |entries| && UniqueKeys(entries) && Uncleared(entries, n, prefix, i)
    ensures prefix <= entries[i].key
    ensures prefix <= entries[n].key && |entries[n].key| == |prefix| ==> |entries[n].key| < |entries[i].key|
  {
    ExactIs(entries[n].key, prefix);
    ExactIs(entries[i].key, prefix);
  }

  lemma {:induction false} SearchHoldsLeast(entries: Chain, n: nat, prefix: string)
    requires n <= |entries| && UniqueKeys(entries)
    ensures HoldsLeast(entries, n, prefix, Search(entries[..n], prefix))
  {
    hide Search, HoldsLeast, UniqueKeys;
    if n == 0 {
      SearchNothing(prefix);
      assert entries[..0] == [];
      NothingUncleared(entries, prefix);
    } else {
      SearchHoldsLeast(entries, n - 1, prefix);
      SearchStep(entries, n - 1, prefix);
      StepHoldsLeast(entries, n - 1, prefix, Search(entries[..n - 1], prefix));
    }
  }

  lemma NothingUncleared(entries: Chain, prefix: string)
    ensures HoldsLeast(entries, 0, prefix, Best(null, 0))
  {
  }

  /**
    The entries, in the order of the chains, for which the search is right: some shortest match is not
    NULL, or every match that is not NULL is followed by a shorter match that is.
   */
  ghost predicate Answerable(entries: Chain, prefix: string) {
    || (exists i :: 0 <= i < |entries| && IsShortest(entries, prefix, i) && entries[i].value != null)
    || (forall i: nat :: !Uncleared(entries, |entries|, prefix, i))
  }

  /** find_prefix, exactly, on the entries as the buckets and chains order them. */
  lemma {:induction false} SearchRightIff(entries: Chain, prefix: string)
    requires UniqueKeys(entries)
    ensures RightAnswer(entries, prefix, Search(entries, prefix).value) <==> Answerable(entries, prefix)
  {
    hide Search, UniqueKeys, Uncleared;
    if exists i :: 0 <= i < |entries| && IsShortest(entries, prefix, i) && entries[i].value != null {
      FindableIsFound(entries, prefix);
    } else {
      assert entries[..|entries|] == entries;
      SearchHoldsLeast(entries, |entries|, prefix);
      if Extended(entries, prefix) {
        var i := ShortestExists(entries, prefix);
      } else {
        NothingToClear(entries, prefix);
      }
    }
  }

  lemma NothingToClear(entries: Chain, prefix: string)
    requires !Extended(entries, prefix)
    ensures forall i: nat :: !Uncleared(entries, |entries|, prefix, i)
  {
  }

  /** What the run of WrongRun puts into the table. */
  function ShadowedTable(v: Value): Table {
    Empty()[6 := [Pair("a", null)]][40 := [Pair("ab", v)]]
  }

  lemma SmallHashes()
    ensures Hash("a") == 6 && Hash("ab") == 40
  {
    assert "a"[1..] == "" && "ab"[1..] == "b" && "b"[1..] == "";
    assert HashFrom(5381, "a") == 177670;
    assert HashFrom(5381, "ab") == HashFrom(177670, "b") == 5863208;
  }

  lemma ShadowedEntries(v: Value)
    ensures Concat(ShadowedTable(v)) == [Pair("a", null), Pair("ab", v)]
  {
    hide Concat;
    var t := Empty()[6 := [Pair("a", null)]];
    ConcatUpdate(t, 40, [Pair("ab", v)]);
    assert t[..40] == EmptyChains(40)[6 := [Pair("a", null)]] && t[41..] == EmptyChains(87);
    ConcatUpdate(EmptyChains(40), 6, [Pair("a", null)]);
    assert EmptyChains(40)[..6] == EmptyChains(6) && EmptyChains(40)[7..] == EmptyChains(33);
    ConcatOfEmpty(87);
    ConcatOfEmpty(6);
    ConcatOfEmpty(33);
    assert [] + [Pair("a", null)] + [] + [Pair("ab", v)] + [] == [Pair("a", null), Pair("ab", v)];
  }

  lemma PutFirst(key: string, value: Value?)
    ensures PutIn([], key, value) == [Pair(key, value)]
  {
  }

  lemma ShadowedRun(v: Value)
    ensures Run([Add("a", null), Add("ab", v)]).table == ShadowedTable(v)
  {
    hide Hash;
    SmallHashes();
    var ops := [Add("a", null), Add("ab", v)];
    assert ops[..1] == [Add("a", null)] && ops[..1][..0] == [];
    PutFirst("a", null);
    PutFirst("ab", v);
    assert Run([]).table == Empty() && Empty()[6] == [];
    assert Run(ops[..1]).table == Step(Run([]), Add("a", null)).table == Empty()[6 := [Pair("a", null)]];
  }

  /** A run after which find_prefix is wrong: "a" with NULL hides behind "ab", which it should not. */
  lemma {:induction false} WrongRun(v: Value)
    ensures var entries := Concat(Run([Add("a", null), Add("ab", v)]).table);
      Search(entries, "a").value == v && !RightAnswer(entries, "a", v)
  {
    hide Run, Concat;
    ShadowedRun(v);
    ShadowedEntries(v);
    var entries := [Pair("a", null), Pair("ab", v)];
    assert entries[..1] == [entries[0]] && entries[..1][..0] == [];
    assert "a" <= "ab" && "a" <= "a";
    assert Search(entries[..1], "a").value == null;
    assert IsShortest(entries, "a", 0) && !IsShortest(entries, "a", 1);
    assert Extended(entries, "a");
  }

  /** With no NULL values stored, the search returns NULL exactly when no key extends the prefix. */
  lemma NullIffNoMatch(entries: Chain, prefix: string)
    requires UniqueKeys(entries) && forall k :: 0 <= k < |entries| ==> entries[k].value != null
    ensures Search(entries, prefix).value == null <==> !Extended(entries, prefix)
  {
    hide Search;
    if Extended(entries, prefix) {
      var i := ShortestExists(entries, prefix);
    }
    FindableIsFound(entries, prefix);
  }
}
