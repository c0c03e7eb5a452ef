/** The kernel's first-fit allocator: a doubly linked list of headers inside one byte arena. */
module KernelHeap {
  import opened Bytes
  import opened HeapBlocks
  import opened HeapMemory

  /** align_up, which wraps in 32 bits. */
  function AlignUp(size: u32): u32 {
    (size + ALIGNMENT - 1) % WORD_RANGE / ALIGNMENT * ALIGNMENT
  }

  /** Rounding up gives the least multiple of eight that is large enough, exactly for sizes
      that leave room for it below 2^32; from there on it wraps to zero. */
  lemma AlignUpMeaning(size: u32)
    ensures AlignUp(size) % 8 == 0
    ensures size <= AlignUp(size) <==> size <= WORD_RANGE - 8
    ensures size <= WORD_RANGE - 8 ==> AlignUp(size) < size + 8
    ensures size > WORD_RANGE - 8 ==> AlignUp(size) == 0
  {
  }

  datatype Stats = Stats(total: nat, used: nat, free: nat, largest: nat, allocations: nat, freeBlocks: nat)

  class Heap {
    const arena: array<byte>
    const base: u32  // the address of the arena
    var head: u32
    var ready: bool
    ghost var blocks: seq<Block>

    ghost predicate Placed()
      reads this
    {
      arena.Length == HEAP_SIZE && 0 < base && base % ALIGNMENT == 0 && base + HEAP_SIZE < WORD_RANGE
    }

    /** The list is in memory, though neighbours may both be free for the moment. */
    ghost predicate Linked()
      reads this, arena
    {
      Placed() && ready && head == base && Tiled(blocks) && Represents(arena[..], base, blocks)
    }

    /** Holds between calls. Before the first use the list counts as the one free block that
        heap_init will make. */
    ghost predicate Valid()
      reads this, arena
    {
      Placed() && Good(blocks) && if ready then Linked() else blocks == INITIAL
    }

    constructor (base: u32)
      requires 0 < base && base % ALIGNMENT == 0 && base + HEAP_SIZE < WORD_RANGE
      ensures Valid() && !ready && this.base == base && fresh(arena)
    {
      this.base := base;
      arena := new byte[HEAP_SIZE](_ => 0);
      head, ready := 0, false;
      blocks := INITIAL;
    }

    // Header fields -------------------------------------------------------------------------------

    function Field(block: u32): Header
      requires base <= block && block - base + HEADER <= arena.Length
      reads arena
    {
      HeaderAt(arena[..], block - base)
    }

    /** What block `i`'s header says. */
    lemma Says(i: nat)
      requires Linked() && i < |blocks|
      ensures var p := Pointer(base, blocks, i);
        && base <= p && p - base + HEADER <= arena.Length && p < WORD_RANGE
        && Field(p) == Expected(base, blocks, i)
    {
      assert HeaderOk(arena[..], base, blocks, i);
    }

    /** One header field is stored, byte by byte. */
    method Set(block: u32, change: Change)
      requires base <= block && block - base + HEADER <= arena.Length
      modifies arena
      ensures arena[..] == Assign(old(arena[..]), block - base, change)
    {
      var h := block - base;
      match change
      case Size(v) => StoreAt(h, v);
      case Next(v) => StoreAt(h + 4, v);
      case Prev(v) => StoreAt(h + 8, v);
      case Mark(free) => arena[h + 12] := if free then 1 else 0;
    }

    method StoreAt(o: nat, v: u32)
      requires o + 4 <= arena.Length
      modifies arena
      ensures arena[..] == StoreWord(old(arena[..]), o, v)
    {
      var bytes := EncodeU32(v);
      arena[o], arena[o + 1], arena[o + 2], arena[o + 3] := bytes[0], bytes[1], bytes[2], bytes[3];
      assert arena[o..o + 4] == bytes;
      assert arena[..] == arena[..o] + arena[o..o + 4] + arena[o + 4..];
    }

    /** The back pointer of the block that `next` points to, if any. */
    method SetBack(next: u32, block: u32, ghost i: nat)
      requires Placed() && next == Pointer(base, blocks, i) && Fits(blocks, i)
      modifies arena
      ensures arena[..] == if i < |blocks| then Assign(old(arena[..]), blocks[i].at, Prev(block)) else old(arena[..])
    {
      if next != 0 {
        Set(next, Prev(block));
      }
    }

    /** A header for the new block that split_block makes. */
    method Create(created: u32, rest: u32, next: u32, block: u32, ghost i: nat)
      requires Placed() && i < |blocks| && next == Pointer(base, blocks, i + 1) && Fits(blocks, i + 1)
      requires base <= created && created - base + HEADER <= HEAP_SIZE
      modifies arena
      ensures arena[..] == CreateImage(old(arena[..]), blocks, i, created - base, rest, next, block, created)
    {
      Set(created, Size(rest));
      Set(created, Mark(true));
      Set(created, Prev(block));
      Set(created, Next(next));
      SetBack(next, created, i + 1);
    }

    /** split_block's assignments. */
    method Divide(block: u32, n: u32, created: u32, rest: u32, next: u32, ghost i: nat)
      requires Placed() && i < |blocks| && next == Pointer(base, blocks, i + 1) && block == Pointer(base, blocks, i)
      requires Fits(blocks, i) && Fits(blocks, i + 1) && base <= created && created - base + HEADER <= HEAP_SIZE
      modifies arena
      ensures arena[..] == SplitImage(old(arena[..]), blocks, i, n, created - base, rest, next, block, created)
    {
      Create(created, rest, next, block, i);
      Set(block, Size(n));
      Set(block, Next(created));
    }

    /** The assignments of either half of coalesce. */
    method Relink(left: u32, size: u32, next: u32, ghost i: nat)
      requires Placed() && i + 1 < |blocks| && next == Pointer(base, blocks, i + 2) && left == Pointer(base, blocks, i)
      requires Fits(blocks, i) && Fits(blocks, i + 2)
      modifies arena
      ensures arena[..] == MergeImage(old(arena[..]), blocks, i, size, next, left)
    {
      assert left - base == blocks[i].at;
      Set(left, Size(size));
      Set(left, Next(next));
      SetBack(next, left, i + 2);
    }

    // The list operations ---------------------------------------------------------------------------

    /** heap_init */
    method Init()
      requires Valid()
      modifies this, arena
      ensures Valid() && ready && blocks == old(blocks)
      ensures old(ready) ==> arena[..] == old(arena[..])
    {
      if ready {
        return;
      }
      head := base;
      ghost var s := arena[..];
      Set(head, Size(HEAP_SIZE - HEADER));
      Set(head, Next(0));
      Set(head, Prev(0));
      Set(head, Mark(true));
      ready := true;
      InitialRepresents(s, base, arena[..]);
    }

    /** find_block */
    method FindBlock(size: u32) returns (current: u32, ghost i: nat)
      requires Linked()
      ensures i == FirstFit(blocks, size) && current == Pointer(base, blocks, i)
    {
      current, i := head, 0;
      while current != 0
        invariant i <= |blocks| && current == Pointer(base, blocks, i)
        invariant forall j :: 0 <= j < i ==> !(blocks[j].free && blocks[j].size >= size)
        decreases |blocks| - i
      {
        assert HeaderOk(arena[..], base, blocks, i);
        if Field(current).free && Field(current).size >= size {
          return;
        }
        current, i := Field(current).next, i + 1;
      }
    }

    /** split_block */
    method SplitBlock(block: u32, n: u32, ghost i: nat)
      requires Linked() && i < |blocks| && block == Pointer(base, blocks, i) && blocks[i].free && Good(blocks)
      requires n <= blocks[i].size && n % ALIGNMENT == 0
      modifies this`blocks, arena
      ensures Linked() && blocks == Split(old(blocks), i, n)
      ensures AllKeptBut(old(arena[..]), arena[..], old(blocks), i)
    {
      assert HeaderOk(arena[..], base, blocks, i);
      SplitKeeps(blocks, i, n);
      Aligned(blocks, i);
      if n >= Field(block).size {
        return;
      }
      var remaining: u32 := Field(block).size - n;
      if remaining <= MIN_SPLIT {
        return;
      }
      var created: u32 := block + HEADER + n;
      var rest: u32 := remaining - HEADER;
      CutOff(block, n, created, rest, Field(block).next, i);
    }

    /** The rest of split_block: the block is large enough to be split. */
    method CutOff(block: u32, n: u32, created: u32, rest: u32, next: u32, ghost i: nat)
      requires Linked() && created >= base
      requires SplitValues(base, blocks, i, n, created - base, rest, next, block, created)
      requires Tiled(Split(blocks, i, n))
      modifies this`blocks, arena
      ensures Linked() && blocks == Split(old(blocks), i, n)
      ensures AllKeptBut(old(arena[..]), arena[..], old(blocks), i)
    {
      ghost var s, bs, b := arena[..], blocks, created - base;
      SplitRepresents(s, base, bs, i, n, b, rest, next, block, created);
      DivideInto(block, n, created, rest, next, i, b, SplitImage(s, bs, i, n, b, rest, next, block, created), Split(bs, i, n));
    }

    /** The same, given what its assignments come to. */
    method DivideInto(block: u32, n: u32, created: u32, rest: u32, next: u32, ghost i: nat, ghost b: nat, ghost t: seq<byte>,
                      ghost r: seq<Block>)
      requires Placed() && ready && head == base && Tiled(r) && Represents(t, base, r)
      requires i < |blocks| && next == Pointer(base, blocks, i + 1) && block == Pointer(base, blocks, i)
      requires Fits(blocks, i) && Fits(blocks, i + 1) && created == base + b && b + HEADER <= HEAP_SIZE
      requires t == SplitImage(arena[..], blocks, i, n, b, rest, next, block, created)
      modifies this`blocks, arena
      ensures Linked() && blocks == r && arena[..] == t
    {
      Divide(block, n, created, rest, next, i);
      blocks := r;
    }

    /** The half of coalesce that joins `left` with its right neighbour. */
    method Absorb(left: u32, right: u32, ghost i: nat)
      requires Linked() && i + 1 < |blocks| && left == Pointer(base, blocks, i) && right == Pointer(base, blocks, i + 1)
      modifies this`blocks, arena
      ensures Linked() && blocks == Merge(old(blocks), i)
      ensures AllKept(old(arena[..]), arena[..], old(blocks))
    {
      Says(i);
      Says(i + 1);
      Aligned(blocks, i);
      Aligned(blocks, i + 1);
      Join(left, Field(left).size + HEADER + Field(right).size, Field(right).next, i);
    }

    method Join(left: u32, size: u32, next: u32, ghost i: nat)
      requires Linked() && i + 1 < |blocks| && left == Pointer(base, blocks, i)
      requires size == blocks[i].size + HEADER + blocks[i + 1].size && next == Pointer(base, blocks, i + 2)
      modifies this`blocks, arena
      ensures Linked() && blocks == Merge(old(blocks), i)
      ensures AllKept(old(arena[..]), arena[..], old(blocks))
    {
      MergeRepresents(arena[..], base, blocks, i, size, next, left);
      MergeTiled(blocks, i);
      Relink(left, size, next, i);
      blocks := Merge(blocks, i);
    }

    /** coalesce: block `i` has just been marked free. */
    method Coalesce(block: u32, ghost i: nat)
      requires Linked() && i < |blocks| && block == Pointer(base, blocks, i) && blocks[i].free
      modifies this`blocks, arena
      ensures Linked() && blocks == MergeLeft(MergeRight(old(blocks), i), i)
      ensures AllKept(old(arena[..]), arena[..], old(blocks))
    {
      ghost var s0, bs0 := arena[..], blocks;
      CoalesceRight(block, i);
      ghost var s1, bs1 := arena[..], blocks;
      CoalesceLeft(block, i);
      KeptThrough(s0, s1, arena[..], bs0, i);
    }

    method CoalesceRight(block: u32, ghost i: nat)
      requires Linked() && i < |blocks| && block == Pointer(base, blocks, i)
      modifies this`blocks, arena
      ensures Linked() && blocks == MergeRight(old(blocks), i) && block == Pointer(base, blocks, i)
      ensures AllKept(old(arena[..]), arena[..], old(blocks))
    {
      Says(i);
      var next: u32 := Field(block).next;
      if next != 0 {
        Says(i + 1);
        if Field(next).free {
          Absorb(block, next, i);
        }
      }
    }

    method CoalesceLeft(block: u32, ghost i: nat)
      requires Linked() && i < |blocks| && block == Pointer(base, blocks, i)
      modifies this`blocks, arena
      ensures Linked() && blocks == MergeLeft(old(blocks), i)
      ensures AllKept(old(arena[..]), arena[..], old(blocks))
    {
      Says(i);
      var prev: u32 := Field(block).prev;
      assert prev == Pointer(base, blocks, i - 1);
      if prev != 0 {
        Says(i - 1);
        if Field(prev).free {
          Absorb(prev, block, i - 1);
        }
      }
    }

    // malloc and free ------------------------------------------------------------------------------

    /** malloc, once a block is found. */
    method Take(block: u32, n: u32, ghost i: nat)
      requires Linked() && i < |blocks| && block == Pointer(base, blocks, i) && blocks[i].free && Good(blocks)
      requires n <= blocks[i].size && n % ALIGNMENT == 0
      modifies this`blocks, arena
      ensures Linked() && blocks == Carve(old(blocks), i, n)
      ensures UsedKept(old(arena[..]), arena[..], old(blocks))
    {
      ghost var s, bs := arena[..], blocks;
      SplitBlock(block, n, i);
      ghost var s1, bs1 := arena[..], blocks;
      MarkRepresents(s1, base, bs1, i, false);
      MarkTiled(bs1, i, false);
      MarkKeepsUsed(s, s1, bs, i);
      Set(block, Mark(false));
      blocks := Marked(bs1, i, false);
    }

    /** malloc: the lowest-address free block that is large enough is carved; otherwise nothing
        changes. No byte of a payload in use changes. */
    method Malloc(size: u32) returns (ptr: u32)
      requires Valid()
      modifies this, arena
      ensures Valid() && (ptr != 0 ==> ready)
      ensures var i := FirstFit(old(blocks), AlignUp(size));
        if size == 0 || i == |old(blocks)| then ptr == 0 && blocks == old(blocks)
        else blocks == Carve(old(blocks), i, AlignUp(size)) && ptr == Address(base, blocks, i)
      ensures 0 < size <= WORD_RANGE - ALIGNMENT ==> (ptr != 0 <==> AlignUp(size) <= Largest(old(blocks)))
      ensures ptr != 0 ==>
                var i := FirstFit(old(blocks), AlignUp(size));
                && TakenAt(old(blocks), i, AlignUp(size), blocks) && ptr == base + blocks[i].at + 16
                && TakenStatistics(old(blocks), i, AlignUp(size), blocks)
      ensures UsedKept(old(arena[..]), arena[..], old(blocks))
    {
      if size == 0 {
        return 0;
      }
      if !ready {
        Init();
      }
      ghost var bs := blocks;
      AlignUpMeaning(size);
      var aligned := AlignUp(size);
      if aligned > 0 {
        FitIffLargest(blocks, aligned);
      }
      ptr := Allocate(aligned);
      if ptr != 0 {
        CarveTakes(bs, FirstFit(bs, aligned), aligned);
      }
    }

    /** The rest of malloc, once the size is aligned and the heap initialised. */
    method Allocate(aligned: u32) returns (ptr: u32)
      requires Valid() && ready && aligned % ALIGNMENT == 0
      modifies this`blocks, arena
      ensures Valid()
      ensures var i := FirstFit(old(blocks), aligned);
        if i == |old(blocks)| then ptr == 0 && blocks == old(blocks)
        else ptr > 0 && blocks == Carve(old(blocks), i, aligned) && ptr == Address(base, blocks, i)
      ensures UsedKept(old(arena[..]), arena[..], old(blocks))
    {
      ghost var bs := blocks;
      var block;
      ghost var i;
      block, i := FindBlock(aligned);
      if block == 0 {
        return 0;
      }
      CarveKeeps(bs, i, aligned);
      Aligned(bs, i);
      Take(block, aligned, i);
      return block + HEADER;
    }

    predicate InHeap(ptr: u32)
      reads this
    {
      base < ptr < base + HEAP_SIZE
    }

    /** What free may be given: nothing, an address outside the heap, or one that belongs to a
        block, in use or not. */
    ghost predicate Freeable(ptr: u32)
      reads this
    {
      ptr == 0 || !ready || !InHeap(ptr) || exists i :: 0 <= i < |blocks| && ptr == Address(base, blocks, i)
    }

    /** free: a block in use is released and joined with free neighbours; anything else changes
        nothing. No byte of any payload changes. */
    method Free(ptr: u32)
      requires Valid() && Freeable(ptr)
      modifies this`blocks, arena
      ensures Valid()
      ensures forall i :: 0 <= i < |old(blocks)| && ptr == Address(base, old(blocks), i) && !old(blocks)[i].free ==>
                blocks == Release(old(blocks), i)
      ensures (forall i :: 0 <= i < |old(blocks)| && ptr == Address(base, old(blocks), i) ==> old(blocks)[i].free) ==>
                blocks == old(blocks) && arena[..] == old(arena[..])
      ensures AllKept(old(arena[..]), arena[..], old(blocks))
    {
      AddressesInHeap(base, blocks);
      if ptr == 0 || !ready || !InHeap(ptr) {
        return;
      }
      ghost var i: nat :| i < |blocks| && ptr == Address(base, blocks, i);
      AddressUnique(base, blocks, i);
      var block: u32 := ptr - HEADER;
      assert HeaderOk(arena[..], base, blocks, i);
      if Field(block).free {
        return;
      }
      GiveBack(block, i);
      ReleaseKeeps(old(blocks), i);
    }

    /** The end of free: the block is marked and joined with its neighbours. */
    method GiveBack(block: u32, ghost i: nat)
      requires Linked() && i < |blocks| && block == Pointer(base, blocks, i)
      modifies this`blocks, arena
      ensures Linked() && blocks == Release(old(blocks), i)
      ensures AllKept(old(arena[..]), arena[..], old(blocks))
    {
      ghost var s, bs := arena[..], blocks;
      MarkRepresents(s, base, bs, i, true);
      MarkTiled(bs, i, true);
      Set(block, Mark(true));
      blocks := Marked(bs, i, true);
      ghost var s1 := arena[..];
      Coalesce(block, i);
      SamePayloads(s, s1, arena[..], bs, i);
    }

    /** calloc: as malloc of count * size, and zeroed; a product that does not fit 32 bits is
        refused. (The products that align_up wraps, for which OverlongProduct says that the block
        is too small for what would be zeroed, are excluded.) */
    method Calloc(count: u32, size: u32) returns (ptr: u32)
      requires Valid() && !(WORD_RANGE - ALIGNMENT < count * size < WORD_RANGE)
      modifies this, arena
      ensures Valid()
      ensures if count * size == 0 || count * size >= WORD_RANGE then ptr == 0 && blocks == old(blocks)
              else Cleared(old(blocks), ptr, count * size)
      ensures ptr != 0 ==> forall p :: ptr - base <= p < ptr - base + count * size ==> 0 <= p < HEAP_SIZE && arena[p] == 0
      ensures UsedKept(old(arena[..]), arena[..], old(blocks))
    {
      if count == 0 || size == 0 {
        return 0;
      }
      var total: u32 := count * size % WORD_RANGE;
      CheckedProduct(count, size);
      if total / count != size {
        return 0;
      }
      ptr := MallocCleared(total);
    }

    /** What an allocation of `total` zeroed bytes leaves. */
    ghost predicate Cleared(before: seq<Block>, ptr: nat, total: nat)
      requires total < WORD_RANGE
      reads this, arena
    {
      var i := FirstFit(before, AlignUp(total));
      if i == |before| then ptr == 0 && blocks == before
      else
        && blocks == Carve(before, i, AlignUp(total)) && ptr == Address(base, blocks, i)
        && total <= blocks[i].size && Zeroed(arena[..], blocks[i].at + HEADER, total)
    }

    /** calloc once the product is known. */
    method MallocCleared(total: u32) returns (ptr: u32)
      requires Valid() && 0 < total <= WORD_RANGE - ALIGNMENT
      modifies this, arena
      ensures Valid() && Cleared(old(blocks), ptr, total)
      ensures UsedKept(old(arena[..]), arena[..], old(blocks))
    {
      ptr := Malloc(total);
      if ptr == 0 {
        return 0;
      }
      ghost var s, i := arena[..], FirstFit(old(blocks), AlignUp(total));
      AlignUpMeaning(total);
      CarveKeeps(old(blocks), i, AlignUp(total));
      Clear(ptr, total, i);
      ClearKeepsUsed(old(arena[..]), s, arena[..], old(blocks), blocks, i, AlignUp(total));
    }

    /** memset(ptr, 0, n) on a block's payload */
    method Clear(ptr: u32, n: u32, ghost i: nat)
      requires Linked() && i < |blocks| && ptr == Address(base, blocks, i) && n <= blocks[i].size
      modifies arena
      ensures Linked() && AllKeptBut(old(arena[..]), arena[..], blocks, i)
      ensures Zeroed(arena[..], blocks[i].at + HEADER, n)
    {
      Aligned(blocks, i);
      ghost var s := arena[..];
      var o: nat := ptr - base;
      var k := 0;
      while k < n
        invariant 0 <= k <= n
        invariant forall p :: 0 <= p < HEAP_SIZE ==> arena[p] == if o <= p < o + k then 0 else s[p]
      {
        arena[o + k] := 0;
        k := k + 1;
      }
      PayloadWrite(s, arena[..], base, blocks, i);
    }

    /** heap_get_stats */
    method GetStats() returns (stats: Stats)
      requires Valid()
      ensures stats == Stats(65520, TotalSize(blocks, false), TotalSize(blocks, true), Largest(blocks),
                             Count(blocks, false), Count(blocks, true))
    {
      var total := HEAP_SIZE - HEADER;
      if !ready || head == 0 {
        InitialStatistics();
        return Stats(total, 0, total, total, 0, 1);
      }
      var used, free, largest, usedBlocks, freeBlocks := 0, 0, 0, 0, 0;
      var current := head;
      ghost var k := 0;
      while current != 0
        invariant 0 <= k <= |blocks| && current == Pointer(base, blocks, k)
        invariant used == TotalSize(blocks[..k], false) && free == TotalSize(blocks[..k], true)
        invariant usedBlocks == Count(blocks[..k], false) && freeBlocks == Count(blocks[..k], true)
        invariant largest == Largest(blocks[..k])
        decreases |blocks| - k
      {
        assert HeaderOk(arena[..], base, blocks, k);
        assert blocks[..k + 1][..k] == blocks[..k];
        if Field(current).free {
          free := free + Field(current).size;
          freeBlocks := freeBlocks + 1;
          if Field(current).size > largest {
            largest := Field(current).size;
          }
        } else {
          used := used + Field(current).size;
          usedBlocks := usedBlocks + 1;
        }
        current, k := Field(current).next, k + 1;
      }
      assert blocks[..k] == blocks;
      return Stats(total, used, free, largest, usedBlocks, freeBlocks);
    }
  }

  /** A block freed at once: the list is exactly what it was. */
  method MallocThenFree(heap: Heap, size: u32)
    requires heap.Valid()
    modifies heap, heap.arena
    ensures heap.Valid() && heap.blocks == old(heap.blocks)
    ensures UsedKept(old(heap.arena[..]), heap.arena[..], old(heap.blocks))
  {
    ghost var s, bs := heap.arena[..], heap.blocks;
    AlignUpMeaning(size);
    var ptr := heap.Malloc(size);
    ghost var s1, bs1 := heap.arena[..], heap.blocks;
    if ptr != 0 {
      ghost var i := FirstFit(bs, AlignUp(size));
      CarveKeeps(bs, i, AlignUp(size));
      assert ptr == Address(heap.base, heap.blocks, i);
      ReleaseUndoesCarve(bs, i, AlignUp(size));
    }
    heap.Free(ptr);
    if ptr != 0 {
      ClearKeepsUsed(s, s1, heap.arena[..], bs, bs1, FirstFit(bs, AlignUp(size)), AlignUp(size));
    }
  }

  /** Every block in use freed, in whatever order: the heap is one free block again. */
  method FreeEvery(heap: Heap, ptrs: seq<u32>, ghost order: seq<Block>)
    requires heap.Valid() && heap.ready && Listed(heap.base, heap.blocks, ptrs, order)
    modifies heap`blocks, heap.arena
    ensures heap.Valid() && heap.blocks == INITIAL
  {
    var k := 0;
    assert ptrs[0..] == ptrs && order[0..] == order;
    while k < |ptrs|
      invariant 0 <= k <= |ptrs| && heap.Valid() && heap.ready
      invariant Listed(heap.base, heap.blocks, ptrs[k..], order[k..])
    {
      FreeNext(heap, ptrs[k], ptrs[k..], order[k..]);
      assert ptrs[k..][1..] == ptrs[k + 1..] && order[k..][1..] == order[k + 1..];
      k := k + 1;
    }
    AllFreeIsInitial(heap.blocks);
  }

  /** The first of the blocks listed is freed. */
  method FreeNext(heap: Heap, ptr: u32, ghost ptrs: seq<u32>, ghost order: seq<Block>)
    requires heap.Valid() && heap.ready && Listed(heap.base, heap.blocks, ptrs, order) && ptrs != [] && ptr == ptrs[0]
    modifies heap`blocks, heap.arena
    ensures heap.Valid() && heap.ready && Listed(heap.base, heap.blocks, ptrs[1..], order[1..])
  {
    ListedFirst(heap.base, heap.blocks, ptrs, order);
    ListedNext(heap.base, heap.blocks, ptrs, order);
    heap.Free(ptr);
  }

  lemma ListedFirst(base: nat, bs: seq<Block>, ptrs: seq<u32>, order: seq<Block>)
    requires Listed(base, bs, ptrs, order) && order != []
    ensures var i := IndexOf(bs, order[0]); i < |bs| && !bs[i].free && ptrs[0] == Address(base, bs, i)
  {
  }

  /** The addresses are those of exactly the blocks in use, each listed once. */
  ghost predicate Listed(base: nat, bs: seq<Block>, ptrs: seq<u32>, order: seq<Block>) {
    && |ptrs| == |order| && Good(bs) && Releasable(bs, order)
    && (forall b :: b in bs && !b.free ==> b in order)
    && (forall k :: 0 <= k < |order| ==> ptrs[k] == base + order[k].at + HEADER)
  }

  lemma ListedNext(base: nat, bs: seq<Block>, ptrs: seq<u32>, order: seq<Block>)
    requires Listed(base, bs, ptrs, order) && order != []
    ensures Listed(base, Release(bs, IndexOf(bs, order[0])), ptrs[1..], order[1..])
  {
    var i := IndexOf(bs, order[0]);
    var r := Release(bs, i);
    ReleaseFirst(bs, order);
    forall b | b in r && !b.free ensures b in order[1..] {
      ReleaseUsed(bs, i, b);
      var k :| 0 <= k < |order| && order[k] == b;
      assert order[1..][k - 1] == b;
    }
  }

  /** The address a caller has for block `i`. */
  function Address(base: nat, bs: seq<Block>, i: nat): nat
    requires i < |bs|
  {
    base + bs[i].at + HEADER
  }

  lemma AddressesInHeap(base: nat, bs: seq<Block>)
    requires Tiled(bs)
    ensures forall i :: 0 <= i < |bs| ==> base < Address(base, bs, i) < base + HEAP_SIZE
    ensures bs == INITIAL ==> forall i :: 0 <= i < |bs| ==> bs[i].free
  {
    forall i | 0 <= i < |bs| ensures base < Address(base, bs, i) < base + HEAP_SIZE {
      Aligned(bs, i);
    }
  }

  lemma AddressUnique(base: nat, bs: seq<Block>, i: nat)
    requires Tiled(bs) && i < |bs|
    ensures forall k :: 0 <= k < |bs| && Address(base, bs, k) == Address(base, bs, i) ==> k == i
  {
    forall k | 0 <= k < |bs| && Address(base, bs, k) == Address(base, bs, i) ensures k == i {
      HeadersApart(bs, k, i);
    }
  }

  /** calloc's overflow check refuses exactly the products that do not fit. */
  lemma OverflowCheck(count: u32, size: u32)
    requires count > 0
    ensures count * size % WORD_RANGE / count == size <==> count * size < WORD_RANGE
  {
    ReducedDivision(count * size, count, size);
  }

  /** The block that calloc's product is served from holds it if and only if align_up did not wrap. */
  lemma OverlongProduct(bs: seq<Block>, total: u32)
    requires Tiled(bs) && total > 0 && FirstFit(bs, AlignUp(total)) < |bs|
    ensures var i := FirstFit(bs, AlignUp(total));
      total <= Carve(bs, i, AlignUp(total))[i].size <==> total <= WORD_RANGE - ALIGNMENT
  {
    AlignUpMeaning(total);
    var i := FirstFit(bs, AlignUp(total));
    Aligned(bs, i);
    SplitTiled(bs, i, AlignUp(total));
  }

  /** Such a product passes the overflow check and is served: the whole arena is free, a block of no
      bytes is taken for 2^32 - 1 of them. */
  lemma OverlongProductServed()
    ensures 65535 * 65537 == WORD_RANGE - 1 && (WORD_RANGE - 1) / 65535 == 65537
    ensures FirstFit(INITIAL, AlignUp(WORD_RANGE - 1)) == 0
    ensures Carve(INITIAL, 0, AlignUp(WORD_RANGE - 1))[0].size == 0
  {
    AlignUpMeaning(WORD_RANGE - 1);
  }

  lemma CheckedProduct(count: u32, size: u32)
    requires count > 0 && size > 0
    ensures var total := count * size % WORD_RANGE;
      && (total / count == size <==> count * size < WORD_RANGE)
      && count * size > 0
      && (count * size < WORD_RANGE ==> total == count * size)
  {
    OverflowCheck(count, size);
    Positive(count, size);
  }

  lemma ReducedDivision(product: nat, count: nat, size: nat)
    requires count > 0 && product == count * size
    ensures product % WORD_RANGE / count == size <==> product < WORD_RANGE
  {
    if product < WORD_RANGE {
      assert product % WORD_RANGE == product;
      DivExact(count, size);
    } else {
      DivSmaller(product % WORD_RANGE, count, size);
    }
  }

  lemma Positive(count: nat, size: nat)
    requires count > 0 && size > 0
    ensures count * size > 0
  {
  }

  lemma DivExact(count: nat, size: nat)
    requires count > 0
    ensures count * size / count == size
  {
    var product := count * size;
    QuotientIs(product, count, size);
  }

  lemma QuotientIs(product: nat, count: nat, size: nat)
    requires count > 0 && product == count * size
    ensures product / count == size
  {
    var q, r := product / count, product % count;
    assert product == count * q + r;
    assert count * (size - q) == r;
    NoMultipleBelow(count, size - q);
  }

  lemma NoMultipleBelow(count: nat, e: int)
    ensures e >= 1 ==> count * e >= count
    ensures e <= -1 ==> count * e + count <= 0
  {
    if e >= 1 {
      assert count * (e - 1) >= 0;
    } else if e <= -1 {
      assert count * (-1 - e) >= 0;
    }
  }

  lemma DivSmaller(total: nat, count: nat, size: nat)
    requires count > 0 && total < count * size
    ensures total / count < size
  {
    var q, r := total / count, total % count;
    assert total == count * q + r;
    assert count * (size - q) > 0;
    NoMultipleBelow(count, size - q);
  }

  lemma InitialStatistics()
    ensures TotalSize(INITIAL, false) == 0 && TotalSize(INITIAL, true) == 65520
    ensures Largest(INITIAL) == 65520
    ensures Count(INITIAL, false) == 0 && Count(INITIAL, true) == 1
  {
    assert INITIAL[..0] == [];
  }

  predicate Zeroed(s: seq<byte>, from: nat, n: nat) {
    from + n <= |s| && forall p :: from <= p < from + n ==> s[p] == 0
  }

  /** Payloads in use keep their bytes. */
  /** Which bytes are kept so: all of every payload in use. */
  lemma UsedKeptMeans(s: seq<byte>, t: seq<byte>, bs: seq<Block>)
    requires Tiled(bs) && |s| == |t| == HEAP_SIZE
    ensures UsedKept(s, t, bs) <==>
            forall j, p :: 0 <= j < |bs| && !bs[j].free && bs[j].at + 16 <= p < bs[j].at + 16 + bs[j].size ==>
              0 <= p < HEAP_SIZE && t[p] == s[p]
  {
    forall j | 0 <= j < |bs| ensures bs[j].at + 16 + bs[j].size <= HEAP_SIZE {
      Aligned(bs, j);
    }
    if UsedKept(s, t, bs) {
      forall j, p | 0 <= j < |bs| && !bs[j].free && bs[j].at + 16 <= p < bs[j].at + 16 + bs[j].size
        ensures t[p] == s[p]
      {
        assert Kept(s, t, bs[j]);
      }
    }
  }

  ghost predicate UsedKept(s: seq<byte>, t: seq<byte>, bs: seq<Block>) {
    forall j {:trigger Kept(s, t, bs[j])} :: 0 <= j < |bs| && !bs[j].free ==> Kept(s, t, bs[j])
  }

  lemma MarkKeepsUsed(s: seq<byte>, t: seq<byte>, bs: seq<Block>, i: nat)
    requires Tiled(bs) && |t| == HEAP_SIZE && i < |bs| && bs[i].free && AllKeptBut(s, t, bs, i) && Fits(bs, i)
    ensures UsedKept(s, Assign(t, bs[i].at, Mark(false)), bs)
  {
    var u := Assign(t, bs[i].at, Mark(false));
    HeaderOutside(t, bs, i, Mark(false));
    forall j | 0 <= j < |bs| && !bs[j].free ensures Kept(s, u, bs[j]) {
      assert Kept(s, t, bs[j]) && Kept(t, u, bs[j]);
    }
  }

  /** Every payload lies inside a payload of the merged list. */
  lemma KeptThrough(s: seq<byte>, t: seq<byte>, u: seq<byte>, bs: seq<Block>, i: nat)
    requires Tiled(bs) && i < |bs| && AllKept(s, t, bs) && AllKept(t, u, MergeRight(bs, i))
    ensures AllKept(s, u, bs)
  {
    var r := MergeRight(bs, i);
    assert i + 1 < |bs| ==> Adjacent(bs, i);
    forall j | 0 <= j < |bs| ensures Kept(s, u, bs[j]) {
      var k := if j <= i || |r| == |bs| then j else j - 1;
      assert Kept(s, t, bs[j]) && Kept(t, u, r[k]);
    }
  }

  /** Marking changes no payload, so what is kept after it is kept. */
  lemma SamePayloads(s: seq<byte>, t: seq<byte>, u: seq<byte>, bs: seq<Block>, i: nat)
    requires i < |bs| && AllKept(s, t, bs) && AllKept(t, u, Marked(bs, i, true))
    ensures AllKept(s, u, bs)
  {
    forall j | 0 <= j < |bs| ensures Kept(s, u, bs[j]) {
      assert Kept(s, t, bs[j]) && Kept(t, u, Marked(bs, i, true)[j]);
    }
  }

  /** A block in use before a malloc is another block than the new one, and keeps its bytes when
      only the new one's are written. */
  lemma ClearKeepsUsed(s: seq<byte>, t: seq<byte>, u: seq<byte>, bs: seq<Block>, r: seq<Block>, i: nat, n: nat)
    requires i < |bs| && bs[i].free && r == Carve(bs, i, n)
    requires UsedKept(s, t, bs) && AllKeptBut(t, u, r, i)
    ensures UsedKept(s, u, bs)
  {
    forall j | 0 <= j < |bs| && !bs[j].free ensures Kept(s, u, bs[j]) {
      var k := if j < i then j else j + |r| - |bs|;
      assert r[k] == bs[j];
      assert Kept(s, t, bs[j]) && Kept(t, u, r[k]);
    }
  }

  function FirstHeader(s: seq<byte>, h: nat, size: u32): (t: seq<byte>)
    requires h + HEADER <= |s|
    ensures |t| == |s|
  {
    Assign(Assign(Assign(Assign(s, h, Size(size)), h, Next(0)), h, Prev(0)), h, Mark(true))
  }

  lemma FourAssigned(s: seq<byte>, h: nat, size: u32)
    requires h + HEADER <= |s|
    ensures HeaderAt(FirstHeader(s, h, size), h) == Header(size, 0, 0, true)
  {
    var s1 := Assign(s, h, Size(size));
    var s2 := Assign(s1, h, Next(0));
    var s3 := Assign(s2, h, Prev(0));
    AssignedHere(s, h, Size(size));
    AssignedHere(s1, h, Next(0));
    AssignedHere(s2, h, Prev(0));
    AssignedHere(s3, h, Mark(true));
  }

  lemma InitialRepresents(s: seq<byte>, base: nat, t: seq<byte>)
    requires |s| == HEAP_SIZE && t == FirstHeader(s, 0, HEAP_SIZE - HEADER)
    ensures Tiled(INITIAL) && Represents(t, base, INITIAL)
  {
    InitialTiled();
    FourAssigned(s, 0, HEAP_SIZE - HEADER);
    SingleHeader(t, base);
  }

  lemma SingleHeader(t: seq<byte>, base: nat)
    requires |t| == HEAP_SIZE && HeaderAt(t, 0) == Header(HEAP_SIZE - HEADER, 0, 0, true)
    ensures Represents(t, base, INITIAL)
  {
    assert HeaderOk(t, base, INITIAL, 0);
  }
}
