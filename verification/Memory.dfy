/**
  malloc'ed strings and who still has to free them. `Free` demands a live block, so a method
  that verifies against `Heap` never frees twice and never frees what it does not own.
 */
module Memory {

  class Block {
    const text: string

    constructor (text: string)
      ensures this.text == text
    {
      this.text := text;
    }
  }

  /** What is allocated: strings, and the buffers that strings are made in. */
  class Heap {
    ghost var live: set<Block>
    ghost var buffers: set<array<char>>

    constructor ()
      ensures live == {} && buffers == {}
    {
      live, buffers := {}, {};
    }

    /** malloc plus copy; allocation is taken to succeed. */
    method StrDup(text: string) returns (b: Block)
      modifies `live
      ensures fresh(b) && b.text == text
      ensures live == old(live) + {b}
    {
      b := new Block(text);
      live := live + {b};
    }

    method Free(b: Block)
      requires b in live
      modifies `live
      ensures live == old(live) - {b}
    {
      live := live - {b};
    }

    /** malloc of a buffer. */
    method Malloc(size: nat) returns (b: array<char>)
      modifies `buffers
      ensures fresh(b) && b.Length == size && buffers == old(buffers) + {b}
    {
      b := new char[size](_ => '\0');
      buffers := buffers + {b};
    }

    method FreeBuffer(b: array<char>)
      requires b in buffers
      modifies `buffers
      ensures buffers == old(buffers) - {b}
    {
      buffers := buffers - {b};
    }

    /** The buffer is handed on as the string that its NUL ends. */
    method TakeString(b: array<char>, len: nat) returns (s: Block)
      requires b in buffers && len < b.Length && b[len] == '\0'
      modifies `live, `buffers
      ensures fresh(s) && s.text == b[..len]
      ensures live == old(live) + {s} && buffers == old(buffers) - {b}
    {
      s := new Block(b[..len]);
      live, buffers := live + {s}, buffers - {b};
    }
  }

  /** `a` starts with exactly these strings. */
  ghost predicate Holds(a: array<Block?>, blocks: seq<Block>)
    reads a
  {
    |blocks| <= a.Length && forall i :: 0 <= i < |blocks| ==> a[i] == blocks[i]
  }

  ghost predicate Distinct(blocks: seq<Block>) {
    forall i, j :: 0 <= i < j < |blocks| ==> blocks[i] != blocks[j]
  }

  function BlockSet(blocks: seq<Block>): set<Block> {
    set b | b in blocks
  }

  function Texts(blocks: seq<Block>): (texts: seq<string>)
    ensures |texts| == |blocks|
    ensures forall i :: 0 <= i < |blocks| ==> texts[i] == blocks[i].text
  {
    if blocks == [] then [] else Texts(blocks[..|blocks| - 1]) + [blocks[|blocks| - 1].text]
  }

  lemma TextsOfPush(blocks: seq<Block>, b: Block)
    ensures Texts(blocks + [b]) == Texts(blocks) + [b.text]
    ensures BlockSet(blocks + [b]) == BlockSet(blocks) + {b}
    ensures Distinct(blocks) && b !in blocks ==> Distinct(blocks + [b])
  {
    assert (blocks + [b])[..|blocks|] == blocks;
  }

  lemma TextsOfConcat(a: seq<Block>, b: seq<Block>)
    ensures Texts(a + b) == Texts(a) + Texts(b)
    ensures BlockSet(a + b) == BlockSet(a) + BlockSet(b)
  {
  }

  /** realloc: a longer array with the same leading slots. */
  method Realloc(a: array<Block?>, capacity: nat, ghost blocks: seq<Block>) returns (b: array<Block?>)
    requires a.Length <= capacity && Holds(a, blocks)
    ensures fresh(b) && b.Length == capacity && Holds(b, blocks)
  {
    b := new Block?[capacity](_ => null);
    for i := 0 to a.Length
      invariant forall k :: 0 <= k < i ==> b[k] == a[k]
    {
      b[i] := a[i];
    }
  }

  /** Store one more string; a full array is first doubled, an empty one gets `initial` slots. */
  method Push(a: array<Block?>, ghost blocks: seq<Block>, count: nat, b: Block, initial: nat)
    returns (a': array<Block?>)
    requires count == |blocks| && Holds(a, blocks) && initial > 0
    modifies a
    ensures (a' == a || fresh(a')) && Holds(a', blocks + [b])
  {
    a' := a;
    if count >= a.Length {
      a' := Realloc(a, if a.Length == 0 then initial else a.Length * 2, blocks);
    }
    a'[count] := b;
  }

  /** `blocks` are live, pairwise different, and all that is live beyond `base`. */
  ghost predicate OwnedBeyond(base: set<Block>, blocks: seq<Block>, live: set<Block>) {
    Distinct(blocks) && BlockSet(blocks) !! base && live == base + BlockSet(blocks)
  }

  lemma OwnNothing(base: set<Block>)
    ensures OwnedBeyond(base, [], base) && Texts([]) == []
  {
  }

  lemma OwnMore(base: set<Block>, blocks: seq<Block>, live: set<Block>)
    requires OwnedBeyond(base, blocks, live)
    ensures Distinct(blocks) && base !! BlockSet(blocks)
    ensures OwnedBeyond(base + BlockSet(blocks), [], live)
  {
  }

  lemma DistinctJoin(a: seq<Block>, b: seq<Block>)
    requires Distinct(a) && Distinct(b) && BlockSet(a) !! BlockSet(b)
    ensures Distinct(a + b)
  {
    var all := a + b;
    forall i, j | 0 <= i < j < |all|
      ensures all[i] != all[j]
    {
      if i < |a| <= j {
        assert all[i] in BlockSet(a) && all[j] in BlockSet(b);
      }
    }
  }

  lemma OwnJoin(base: set<Block>, a: seq<Block>, mid: set<Block>, b: seq<Block>, live: set<Block>)
    requires OwnedBeyond(base, a, mid) && OwnedBeyond(mid, b, live)
    ensures OwnedBeyond(base, a + b, live)
  {
    hide Distinct, BlockSet;
    DistinctJoin(a, b);
    TextsOfConcat(a, b);
  }

  lemma DistinctWithout(a: seq<Block>, b: Block, c: seq<Block>)
    requires Distinct(a + [b] + c)
    ensures Distinct(a + c) && b !in a + c && BlockSet(a + [b] + c) == BlockSet(a + c) + {b}
  {
    var was, rest := a + [b] + c, a + c;
    assert was[|a|] == b;
    assert forall i :: 0 <= i < |was| ==> was[i] == b || was[i] in rest;
    forall i | 0 <= i < |rest|
      ensures rest[i] == was[if i < |a| then i else i + 1] != b
    {
    }
    forall i, j | 0 <= i < j < |rest|
      ensures rest[i] != rest[j]
    {
      assert rest[i] == was[if i < |a| then i else i + 1];
      assert rest[j] == was[if j < |a| then j else j + 1];
    }
  }

  lemma OwnMove(base: set<Block>, a: seq<Block>, b: Block, c: seq<Block>, live: set<Block>)
    requires OwnedBeyond(base, a + [b] + c, live)
    ensures OwnedBeyond(base, a + c + [b], live)
    ensures OwnedBeyond(base, a + c, live - {b}) && b in live
  {
    DistinctWithout(a, b, c);
    TextsOfPush(a + c, b);
  }

  lemma DistinctParts(a: seq<Block>, b: seq<Block>)
    requires Distinct(a + b)
    ensures Distinct(a) && Distinct(b) && BlockSet(a) !! BlockSet(b)
  {
    var all := a + b;
    assert forall i :: 0 <= i < |a| ==> all[i] == a[i];
    assert forall i :: 0 <= i < |b| ==> all[|a| + i] == b[i];
  }

  lemma OwnExcept(base: set<Block>, a: seq<Block>, b: seq<Block>, live: set<Block>)
    requires OwnedBeyond(base, a + b, live)
    ensures OwnedBeyond(base + BlockSet(a), b, live) && OwnedBeyond(base, a, base + BlockSet(a))
  {
    hide Distinct, BlockSet;
    DistinctParts(a, b);
    TextsOfConcat(a, b);
  }

  /** Copy a string and store it. */
  method PushCopy(heap: Heap, a: array<Block?>, count: nat, text: string, initial: nat,
                  ghost base: set<Block>, ghost blocks: seq<Block>)
    returns (a': array<Block?>, count': nat, ghost blocks': seq<Block>)
    requires count == |blocks| && Holds(a, blocks) && initial > 0
    requires OwnedBeyond(base, blocks, heap.live)
    modifies heap`live, a
    ensures a' == a || fresh(a')
    ensures count' == count + 1 == |blocks'| && Holds(a', blocks')
    ensures Texts(blocks') == Texts(blocks) + [text] && blocks <= blocks'
    ensures OwnedBeyond(base, blocks', heap.live)
  {
    var b := heap.StrDup(text);
    TextsOfPush(blocks, b);
    a' := Push(a, blocks, count, b, initial);
    blocks', count' := blocks + [b], count + 1;
  }

  /** Store a character, first doubling a buffer that has no room for it and a NUL. */
  method PutChar(buffer: array<char>, len: nat, c: char) returns (buffer': array<char>)
    requires len < buffer.Length
    modifies buffer
    ensures (buffer' == buffer || fresh(buffer')) && len + 1 < buffer'.Length
    ensures buffer'[..len + 1] == old(buffer[..len]) + [c]
  {
    buffer' := buffer;
    if len + 1 >= buffer.Length {
      buffer' := new char[2 * buffer.Length](_ => '\0');
      forall i | 0 <= i < buffer.Length {
        buffer'[i] := buffer[i];
      }
    }
    buffer'[len] := c;
  }

  /** The same on an allocated buffer: the longer one, if there is one, takes its place. */
  method StoreChar(heap: Heap, buffer: array<char>, len: nat, c: char) returns (buffer': array<char>)
    requires len < buffer.Length && buffer in heap.buffers
    modifies heap`buffers, buffer
    ensures (buffer' == buffer || fresh(buffer')) && len + 1 < buffer'.Length
    ensures buffer'[..len + 1] == old(buffer[..len]) + [c]
    ensures heap.buffers == old(heap.buffers) - {buffer} + {buffer'}
  {
    buffer' := PutChar(buffer, len, c);
    heap.buffers := heap.buffers - {buffer} + {buffer'};
  }
}
