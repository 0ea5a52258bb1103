/** The vector of block numbers that lives in one machine word: empty, a tagged singleton, or a pointer
    to a length-prefixed array. */
module BlocknrVector {
  import opened CTypes

  /** Sizes stay below the range of the `int` that indexes the array. */
  const MAX_SIZE := 0x7FFF_FFFF

  function Put(s: seq<u32>, i: nat, v: u32): seq<u32>
    requires i < |s|
  {
    s[i := v]
  }

  /** Arrays of 32-bit words by address; addresses are even and not zero. */
  class Heap {
    var blocks: map<nat, seq<u32>>
    var top: nat

    ghost predicate Valid()
      reads this
    {
      && top % 2 == 0 && top > 0
      && forall a :: a in blocks ==> 0 < a < top && a % 2 == 0
    }

    constructor ()
      ensures Valid() && blocks == map[]
    {
      blocks := map[];
      top := 8;
    }

    /** `new uint32_t[n]` */
    method New(n: nat) returns (p: nat)
      requires Valid()
      modifies this
      ensures Valid()
      ensures p !in old(blocks) && p != 0 && p % 2 == 0
      ensures p in blocks && |blocks[p]| == n && blocks - {p} == old(blocks)
    {
      p := top;
      blocks := blocks[p := seq(n, _ => 0)];
      top := top + 8;
    }

    /** `delete []` */
    method Delete(p: nat)
      requires Valid() && p in blocks
      modifies this
      ensures Valid() && blocks == old(blocks) - {p}
    {
      blocks := blocks - {p};
    }

    method Store(p: nat, i: nat, v: u32)
      requires Valid() && p in blocks && i < |blocks[p]|
      modifies this
      ensures Valid() && blocks == old(blocks)[p := Put(old(blocks)[p], i, v)]
    {
      blocks := blocks[p := Put(blocks[p], i, v)];
    }
  }

  // ----- singletons

  /** `(v << 1) | 1` on 32 bits. */
  function Tagged(v: u32): (w: nat)
    ensures w % 2 == 1
  {
    2 * v % 0x1_0000_0000 + 1
  }

  /** `(last_block << 1) | 1` on an `int`, widened to the 64-bit word. */
  function TaggedInt(v: u32): (w: nat)
    ensures w % 2 == 1
  {
    (ToInt32(2 * ToInt32(v)) + 1) % 0x1_0000_0000_0000_0000
  }

  /** `blocknr >> 1` cut to 32 bits. */
  function Untagged(w: nat): u32
  {
    w / 2 % 0x1_0000_0000
  }

  /** A value stored with the 32-bit shift reads back exactly below 2^31. */
  lemma TaggedExact(v: u32)
    ensures Untagged(Tagged(v)) == v % 0x8000_0000
    ensures Untagged(Tagged(v)) == v <==> v < 0x8000_0000
  {
    var m := 2 * v % 0x1_0000_0000;
    assert m == 2 * (v % 0x8000_0000);
    assert (m + 1) / 2 == v % 0x8000_0000;
  }

  /** The word that the 32-bit shift stores. */
  lemma TaggedWord(v: u32)
    ensures Tagged(v) == if v < 0x8000_0000 then 2 * v + 1 else 2 * v - 0x1_0000_0000 + 1
  {
  }

  lemma Unsigned64(x: int)
    requires -0x1_0000_0000 < x < 0x1_0000_0000
    ensures x % 0x1_0000_0000_0000_0000 == if x < 0 then x + 0x1_0000_0000_0000_0000 else x
  {
  }

  /** The word that the `int` shift stores, by the top two bits of the value. */
  lemma TaggedIntWord(v: u32)
    ensures v < 0x4000_0000 ==> TaggedInt(v) == 2 * v + 1
    ensures 0x4000_0000 <= v < 0x8000_0000 ==> TaggedInt(v) == 0xFFFF_FFFF_0000_0000 + 2 * v + 1
    ensures 0x8000_0000 <= v < 0xC000_0000 ==> TaggedInt(v) == 2 * v - 0x1_0000_0000 + 1
    ensures 0xC000_0000 <= v ==> TaggedInt(v) == 0xFFFF_FFFE_0000_0000 + 2 * v + 1
  {
    var shifted := 2 * ToInt32(v);
    ToInt32Cases(v);
    ToInt32Cases(shifted);
    Unsigned64(ToInt32(shifted) + 1);
  }

  /** The `int` shift of a collapse is exact only for values whose `int` lies within 30 bits. */
  lemma TaggedIntExact(v: u32)
    ensures Untagged(TaggedInt(v)) == v <==> v < 0x4000_0000 || 0xC000_0000 <= v
  {
    TaggedIntWord(v);
    var half := TaggedInt(v) / 2;
    assert half == if v < 0x4000_0000 then v
                   else if v < 0x8000_0000 then 0x7FFF_FFFF_8000_0000 + v
                   else if v < 0xC000_0000 then v - 0x8000_0000
                   else 0x7FFF_FFFF_0000_0000 + v;
  }

  // ----- the sequence behind the operations

  function FirstIndex(s: seq<u32>, v: u32): (i: nat)
    requires v in s
    ensures i < |s| && s[i] == v && v !in s[..i]
  {
    if s[0] == v then 0 else 1 + FirstIndex(s[1..], v)
  }

  /** The last element takes the place of the first occurrence. */
  function SwapRemove(s: seq<u32>, v: u32): (r: seq<u32>)
    requires v in s
    ensures |r| == |s| - 1
  {
    Put(s, FirstIndex(s, v), s[|s| - 1])[..|s| - 1]
  }

  /** Exactly one occurrence goes; the last entry is in its place, and everything else stays. */
  lemma SwapRemoveMultiset(s: seq<u32>, v: u32)
    requires v in s
    ensures forall i :: 0 <= i < |s| - 1 ==>
      SwapRemove(s, v)[i] == if i == FirstIndex(s, v) then s[|s| - 1] else s[i]
    ensures multiset(SwapRemove(s, v)) == multiset(s) - multiset{v}
    ensures forall i :: 0 <= i < FirstIndex(s, v) ==> SwapRemove(s, v)[i] == s[i]
  {
    ReplaceByLast(s, FirstIndex(s, v));
  }

  lemma ReplaceByLast(s: seq<u32>, i: nat)
    requires i < |s|
    ensures multiset(Put(s, i, s[|s| - 1])[..|s| - 1]) == multiset(s) - multiset{s[i]}
  {
    var k := |s| - 1;
    if i < k {
      assert s == s[..i] + [s[i]] + s[i + 1..k] + [s[k]];
      assert Put(s, i, s[k])[..k] == s[..i] + [s[k]] + s[i + 1..k];
      Exchange(s[..i], s[i], s[i + 1..k], s[k]);
    } else {
      assert s == s[..k] + [s[k]];
      assert Put(s, i, s[k])[..k] == s[..k];
    }
  }

  lemma Exchange(a: seq<u32>, x: u32, b: seq<u32>, y: u32)
    ensures multiset(a + [y] + b) == multiset(a + [x] + b + [y]) - multiset{x}
  {
  }

  class BlocknrVector {
    const heap: Heap
    var word: nat

    ghost predicate HeapForm()
      reads this
    {
      word != 0 && word % 2 == 0
    }

    /** The representation invariant: a pointer leads to an array of at least two entries. */
    ghost predicate Valid()
      reads this, heap
    {
      && heap.Valid()
      && (HeapForm() ==>
            && word in heap.blocks
            && 1 <= |heap.blocks[word]|
            && 2 <= heap.blocks[word][0] < MAX_SIZE
            && heap.blocks[word][0] + 1 <= |heap.blocks[word]|)
    }

    ghost function Contents(): (s: seq<u32>)
      requires Valid()
      reads this, heap
      ensures s == [] <==> word == 0
      ensures |s| >= 2 <==> HeapForm()
    {
      if word == 0 then []
      else if word % 2 == 1 then [Untagged(word)]
      else heap.blocks[word][1..heap.blocks[word][0] + 1]
    }

    /** The array that the vector owns. */
    ghost function Owned(): set<nat>
      reads this
    {
      if HeapForm() then {word} else {}
    }

    /** Only the owned array was freed or changed, and nothing but the new one is left behind. */
    twostate predicate OwnsOnly()
      reads this, heap
    {
      Leakless(old(heap.blocks), old(Owned()), heap.blocks, Owned())
    }

    constructor (heap: Heap)
      requires heap.Valid()
      ensures this.heap == heap && Valid() && Contents() == []
    {
      this.heap := heap;
      word := 0;
    }

    predicate IsEmpty()
      reads this
    {
      word == 0
    }

    /** `is_vector`, with its assertion. */
    predicate IsVector()
      requires !IsEmpty()
      reads this
    {
      word % 2 == 0
    }

    function Size(): (n: u32)
      requires Valid() && !IsEmpty()
      reads this, heap
      ensures n == |Contents()|
    {
      if IsVector() then heap.blocks[word][0] else 1
    }

    function FirstEntry(): (v: u32)
      requires Valid() && !IsEmpty()
      reads this, heap
      ensures v == Contents()[0]
    {
      if IsVector() then heap.blocks[word][1] else Untagged(word)
    }

    /** `operator[]` */
    function Get(index: int): (v: u32)
      requires Valid() && !IsEmpty() && 0 <= index < Size()
      reads this, heap
      ensures v == Contents()[index]
    {
      if index == 0 then FirstEntry() else heap.blocks[word][index + 1]
    }

    method Erase()
      requires Valid() && !IsEmpty()
      modifies this, heap
      ensures Valid() && Contents() == [] && OwnsOnly()
    {
      if IsVector() {
        heap.Delete(word);
      }
      word := 0;
    }

    /** Stores at least two entries in a new array. */
    method AssignMany(vec: seq<u32>)
      requires Valid() && IsEmpty() && 2 <= |vec| < MAX_SIZE
      modifies this, heap
      ensures Valid() && OwnsOnly() && Contents() == vec
    {
      var size := |vec|;
      ghost var before := heap.blocks;
      var p := heap.New(size + 1);
      heap.Store(p, 0, size);
      var i := 0;
      while i < size
        invariant 0 <= i <= size && heap.Valid()
        invariant p in heap.blocks && |heap.blocks[p]| == size + 1 && heap.blocks - {p} == before
        invariant heap.blocks[p][0] == size && heap.blocks[p][1..i + 1] == vec[..i]
      {
        NextCell(heap.blocks[p], i, vec[i]);
        heap.Store(p, i + 1, vec[i]);
        assert vec[..i] + [vec[i]] == vec[..i + 1];
        i := i + 1;
      }
      word := p;
      assert vec[..size] == vec;
    }

    /** `operator=` */
    method Assign(vec: seq<u32>)
      requires Valid() && |vec| < MAX_SIZE
      modifies this, heap
      ensures Valid() && OwnsOnly()
      ensures Contents() == if |vec| == 1 then [vec[0] % 0x8000_0000] else vec
    {
      if !IsEmpty() {
        Erase();
      }
      ghost var blocks, owned := heap.blocks, Owned();
      var size := |vec|;
      if size > 0 {
        if size == 1 {
          word := Tagged(vec[0]);
          TaggedExact(vec[0]);
        } else {
          AssignMany(vec);
          LeaklessTwice(old(heap.blocks), old(Owned()), blocks, owned, heap.blocks, Owned());
        }
      }
    }

    /** A new array with room for `size` entries, into which all but the last have been copied. */
    method CopyEntries(size: u32) returns (p: nat)
      requires Valid() && HeapForm() && size == |Contents()| + 1
      modifies heap
      ensures Valid() && p !in old(heap.blocks) && p != 0 && p % 2 == 0
      ensures p in heap.blocks && heap.blocks - {p} == old(heap.blocks)
      ensures |heap.blocks[p]| == size + 1 && heap.blocks[p][0] == size
      ensures heap.blocks[p][1..size] == old(Contents())
    {
      ghost var before, s := heap.blocks, Contents();
      p := heap.New(size + 1);
      assert heap.blocks[word] == (heap.blocks - {p})[word];
      heap.Store(p, 0, size);
      var i := 1;
      while i < size
        invariant 1 <= i <= size && heap.Valid()
        invariant p in heap.blocks && |heap.blocks[p]| == size + 1 && heap.blocks - {p} == before
        invariant word in heap.blocks && heap.blocks[word] == before[word]
        invariant heap.blocks[p][0] == size && heap.blocks[p][1..i] == s[..i - 1]
      {
        assert heap.blocks[word][i] == s[i - 1];
        NextCell(heap.blocks[p], i - 1, s[i - 1]);
        heap.Store(p, i, heap.blocks[word][i]);
        assert s[..i - 1] + [s[i - 1]] == s[..i];
        i := i + 1;
      }
    }

    /** Moves the entries to a larger array and appends one. */
    method Grow(bnr: u32)
      requires Valid() && HeapForm() && |Contents()| + 1 < MAX_SIZE
      modifies this, heap
      ensures Valid() && OwnsOnly()
      ensures Contents() == old(Contents()) + [bnr]
    {
      var size := heap.blocks[word][0] + 1;
      var p := CopyEntries(size);
      ghost var cells := heap.blocks[p];
      heap.Store(p, size, bnr);
      assert heap.blocks[p] == cells[..size] + [bnr];
      assert heap.blocks[p][1..size + 1] == cells[1..size] + [bnr];
      heap.Delete(word);
      word := p;
    }

    method PushBack(bnr: u32)
      requires Valid() && (IsEmpty() ==> bnr != 0)
      requires |Contents()| + 1 < MAX_SIZE
      modifies this, heap
      ensures Valid() && OwnsOnly()
      ensures Contents() == if old(Contents()) == [] then [bnr % 0x8000_0000] else old(Contents()) + [bnr]
    {
      if IsEmpty() {
        word := Tagged(bnr);
        TaggedExact(bnr);
      } else if IsVector() {
        Grow(bnr);
      } else {
        var p := heap.New(3);
        heap.Store(p, 0, 2);
        heap.Store(p, 1, Untagged(word));
        heap.Store(p, 2, bnr);
        word := p;
      }
    }

    /** The place of a block number in the array. */
    method FindEntry(blknr: u32) returns (found: nat)
      requires Valid() && HeapForm() && blknr in Contents()
      ensures found == FirstIndex(Contents(), blknr) + 1
    {
      ghost var s := Contents();
      found := 0;
      var j := 1;
      while j <= heap.blocks[word][0]
        invariant 1 <= j <= |s| + 1
        invariant forall k :: 0 <= k < j - 1 ==> s[k] != blknr
      {
        if heap.blocks[word][j] == blknr {
          FirstIndexUnique(s, blknr, j - 1);
          return j;
        }
        j := j + 1;
      }
      assert false;
    }

    /** Swaps the last entry into the first occurrence and lowers the size. */
    method SwapLast(blknr: u32) returns (size: u32)
      requires Valid() && HeapForm() && blknr in Contents()
      modifies heap
      ensures heap.Valid() && word in heap.blocks && heap.blocks - {word} == old(heap.blocks) - {word}
      ensures size == |old(Contents())| - 1 && size + 1 <= |heap.blocks[word]|
      ensures heap.blocks[word][0] == size
      ensures heap.blocks[word][1..size + 1] == SwapRemove(old(Contents()), blknr)
    {
      size := heap.blocks[word][0];
      var found := FindEntry(blknr);
      SwappedCells(heap.blocks[word], size, blknr);
      heap.Store(word, found, heap.blocks[word][size]);
      size := size - 1;
      heap.Store(word, 0, size);
    }

    /** Swaps the last entry into the first occurrence; two entries collapse to a singleton. */
    method Remove(blknr: u32)
      requires Valid() && !IsEmpty() && IsVector() && blknr in Contents()
      modifies this, heap
      ensures Valid() && OwnsOnly()
      ensures Contents() == Collapse(SwapRemove(old(Contents()), blknr))
    {
      var size := SwapLast(blknr);
      if size == 1 {
        var last := heap.blocks[word][1];
        heap.Delete(word);
        word := TaggedInt(last);
      }
    }

    method PerformOne(op: Op)
      requires Valid() && AllSmall(Contents()) && LegalStep(Contents(), op)
      modifies this, heap
      ensures Valid() && OwnsOnly() && Contents() == StepOf(old(Contents()), op)
    {
      match op {
        case Push(b) => PushBack(b);
        case RemoveOne(b) =>
          StepStaysSmall(Contents(), op);
          TaggedIntExact(SwapRemove(Contents(), b)[0]);
          Remove(b);
        case EraseAll => Erase();
        case AssignAll(vec) => Assign(vec);
      }
    }

    /** Any run of operations with values below 2^30 acts on the contents as on a sequence and leaks
        nothing. */
    method Perform(ops: seq<Op>)
      requires Valid() && AllSmall(Contents()) && LegalRun(Contents(), ops)
      modifies this, heap
      ensures Valid() && OwnsOnly()
      ensures Contents() == RunOf(old(Contents()), ops)
    {
      var i := 0;
      while i < |ops|
        invariant 0 <= i <= |ops| && Valid() && AllSmall(Contents())
        invariant LegalRun(Contents(), ops[i..])
        invariant RunOf(Contents(), ops[i..]) == RunOf(old(Contents()), ops)
        invariant Leakless(old(heap.blocks), old(Owned()), heap.blocks, Owned())
      {
        assert ops[i..][0] == ops[i] && ops[i..][1..] == ops[i + 1..];
        StepStaysSmall(Contents(), ops[i]);
        ghost var blocks, owned := heap.blocks, Owned();
        PerformOne(ops[i]);
        LeaklessTwice(old(heap.blocks), old(Owned()), blocks, owned, heap.blocks, Owned());
        i := i + 1;
      }
    }
  }

  /** One more entry in the cells of an array. */
  lemma NextCell(cells: seq<u32>, i: nat, v: u32)
    requires i + 1 < |cells|
    ensures Put(cells, i + 1, v)[1..i + 2] == cells[1..i + 1] + [v]
    ensures Put(cells, i + 1, v)[0] == cells[0]
  {
  }

  /** What the two stores of a removal leave in the cells of the array. */
  lemma SwappedCells(cells: seq<u32>, size: u32, v: u32)
    requires 0 < size < |cells| && v in cells[1..size + 1]
    ensures var s := cells[1..size + 1];
      Put(Put(cells, FirstIndex(s, v) + 1, cells[size]), 0, size - 1)[1..size] == SwapRemove(s, v)
  {
    var s := cells[1..size + 1];
    var swapped := Put(cells, FirstIndex(s, v) + 1, cells[size]);
    assert swapped[1..size + 1] == Put(s, FirstIndex(s, v), s[|s| - 1]);
    assert Put(swapped, 0, size - 1)[1..size] == swapped[1..size + 1][..size - 1];
  }

  /** Of two heaps, each with the arrays that a vector owns in it: nothing else was changed, freed or
      left behind between them, and nothing that belongs to others was taken over. */
  ghost predicate Leakless(before: map<nat, seq<u32>>, ownedBefore: set<nat>,
                           after: map<nat, seq<u32>>, ownedAfter: set<nat>)
  {
    && ownedBefore <= before.Keys && ownedAfter <= after.Keys
    && after - ownedAfter == before - ownedBefore
    && ownedAfter !! before.Keys - ownedBefore
  }

  lemma LeaklessTwice(a: map<nat, seq<u32>>, ownedA: set<nat>, b: map<nat, seq<u32>>, ownedB: set<nat>,
                      c: map<nat, seq<u32>>, ownedC: set<nat>)
    requires Leakless(a, ownedA, b, ownedB) && Leakless(b, ownedB, c, ownedC)
    ensures Leakless(a, ownedA, c, ownedC)
  {
    assert (a - ownedA).Keys == a.Keys - ownedA && (b - ownedB).Keys == b.Keys - ownedB;
  }

  /** A sequence of one entry is stored with the `int` shift. */
  function Collapse(s: seq<u32>): seq<u32>
  {
    if |s| == 1 then [Untagged(TaggedInt(s[0]))] else s
  }

  /** A removal acts as on a sequence exactly when more than two entries were there or the one that is
      left survives the `int` shift. */
  lemma RemoveExact(s: seq<u32>, v: u32)
    requires |s| >= 2 && v in s
    ensures Collapse(SwapRemove(s, v)) == SwapRemove(s, v)
            <==> |s| > 2 || SwapRemove(s, v)[0] < 0x4000_0000 || 0xC000_0000 <= SwapRemove(s, v)[0]
  {
    TaggedIntExact(SwapRemove(s, v)[0]);
  }

  lemma FirstIndexUnique(s: seq<u32>, v: u32, i: nat)
    requires i < |s| && s[i] == v && forall k :: 0 <= k < i ==> s[k] != v
    ensures FirstIndex(s, v) == i
  {
    var k := FirstIndex(s, v);
    assert forall j :: 0 <= j < k ==> s[j] == s[..k][j];
  }

  // ----- runs

  datatype Op = Push(b: u32) | RemoveOne(b: u32) | EraseAll | AssignAll(vec: seq<u32>)

  predicate AllSmall(s: seq<u32>)
  {
    forall i :: 0 <= i < |s| ==> s[i] < 0x4000_0000
  }

  /** The assertions of an operation on the sequence, with values below 2^30. */
  predicate LegalStep(s: seq<u32>, op: Op)
  {
    match op
    case Push(b) => b < 0x4000_0000 && (s == [] ==> b != 0) && |s| + 1 < MAX_SIZE
    case RemoveOne(b) => |s| >= 2 && b in s
    case EraseAll => s != []
    case AssignAll(vec) => |vec| < MAX_SIZE && AllSmall(vec)
  }

  function StepOf(s: seq<u32>, op: Op): seq<u32>
    requires LegalStep(s, op)
  {
    match op
    case Push(b) => s + [b]
    case RemoveOne(b) => SwapRemove(s, b)
    case EraseAll => []
    case AssignAll(vec) => vec
  }

  predicate LegalRun(s: seq<u32>, ops: seq<Op>)
    decreases |ops|
  {
    |ops| > 0 ==> LegalStep(s, ops[0]) && LegalRun(StepOf(s, ops[0]), ops[1..])
  }

  function RunOf(s: seq<u32>, ops: seq<Op>): seq<u32>
    requires LegalRun(s, ops)
    decreases |ops|
  {
    if |ops| == 0 then s else RunOf(StepOf(s, ops[0]), ops[1..])
  }

  lemma StepStaysSmall(s: seq<u32>, op: Op)
    requires AllSmall(s) && LegalStep(s, op)
    ensures AllSmall(StepOf(s, op))
  {
  }

  /** A vector of block 2^30 and another one. */
  method TwoBlocks() returns (vector: BlocknrVector)
    ensures fresh(vector) && fresh(vector.heap) && vector.Valid()
    ensures vector.Contents() == [0x4000_0000, 7]
  {
    var heap := new Heap();
    vector := new BlocknrVector(heap);
    vector.PushBack(0x4000_0000);
    vector.PushBack(7);
    assert vector.Contents() == [0x4000_0000, 7];
  }

  /** Removing the other garbles it: block 2^30 comes back as 3·2^30. */
  method CollapseGarbles(vector: BlocknrVector)
    requires vector.Valid() && vector.Contents() == [0x4000_0000, 7]
    modifies vector, vector.heap
    ensures vector.Valid() && vector.Contents() == [0xC000_0000]
    ensures SwapRemove(old(vector.Contents()), 7) == [0x4000_0000]
  {
    assert SwapRemove([0x4000_0000, 7], 7) == [0x4000_0000];
    vector.Remove(7);
    assert TaggedInt(0x4000_0000) == 0xFFFF_FFFF_8000_0001;
  }
}
