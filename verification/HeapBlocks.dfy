/** The kernel heap as a list of blocks: splitting, merging and what they keep. */
module HeapBlocks {

  const HEAP_SIZE: nat := 65536
  const HEADER: nat := 16
  const ALIGNMENT: nat := 8
  const MIN_SPLIT: nat := HEADER + ALIGNMENT

  // `at` is the offset of the header, `size` the length of the payload behind it.
  datatype Block = Block(at: nat, size: nat, free: bool)

  function End(b: Block): nat {
    b.at + HEADER + b.size
  }

  const INITIAL: seq<Block> := [Block(0, HEAP_SIZE - HEADER, true)]

  predicate Adjacent(bs: seq<Block>, i: nat)
    requires i + 1 < |bs|
  {
    bs[i + 1].at == End(bs[i])
  }

  /** The blocks tile the arena in address order; sizes are multiples of the alignment. */
  predicate Tiled(bs: seq<Block>) {
    && bs != []
    && bs[0].at == 0
    && (forall i {:trigger Adjacent(bs, i)} :: 0 <= i < |bs| - 1 ==> Adjacent(bs, i))
    && End(bs[|bs| - 1]) == HEAP_SIZE
    && bs[|bs| - 1].size > 0
    && (forall i :: 0 <= i < |bs| ==> bs[i].size % ALIGNMENT == 0)
  }

  lemma InitialTiled()
    ensures Tiled(INITIAL)
  {
  }

  /** No two neighbours are both free. */
  predicate Coalesced(bs: seq<Block>) {
    forall i :: 0 <= i < |bs| - 1 ==> !(bs[i].free && bs[i + 1].free)
  }

  predicate Good(bs: seq<Block>) {
    Tiled(bs) && Coalesced(bs)
  }

  /** Earlier blocks end before later ones begin. */
  lemma {:induction false} Ordered(bs: seq<Block>, i: nat, j: nat)
    requires Tiled(bs) && i < j < |bs|
    ensures End(bs[i]) <= bs[j].at
    decreases j - i
  {
    assert Adjacent(bs, j - 1);
    if i + 1 < j {
      Ordered(bs, i, j - 1);
    }
  }

  lemma {:induction false} Aligned(bs: seq<Block>, i: nat)
    requires Tiled(bs) && i < |bs|
    ensures bs[i].at % ALIGNMENT == 0 && End(bs[i]) <= HEAP_SIZE
    ensures bs[i].at + HEADER < HEAP_SIZE
  {
    if i > 0 {
      assert Adjacent(bs, i - 1);
      Aligned(bs, i - 1);
    }
    if i < |bs| - 1 {
      Ordered(bs, i, |bs| - 1);
    }
  }

  /** Payloads of different blocks are disjoint, and headers lie outside all payloads. */
  lemma PayloadsDisjoint(bs: seq<Block>, i: nat, j: nat, p: nat)
    requires Tiled(bs) && i < |bs| && j < |bs| && i != j
    requires bs[i].at + HEADER <= p < End(bs[i])
    ensures !(bs[j].at <= p < End(bs[j]))
  {
    if i < j {
      Ordered(bs, i, j);
    } else {
      Ordered(bs, j, i);
    }
  }

  // Allocation ---------------------------------------------------------------------------------

  /** find_block: the first free block that is large enough, or |bs|. */
  function FirstFit(bs: seq<Block>, n: nat): (i: nat)
    ensures i <= |bs|
    ensures i < |bs| ==> bs[i].free && bs[i].size >= n
    ensures forall j :: 0 <= j < i ==> !(bs[j].free && bs[j].size >= n)
  {
    if bs == [] then 0
    else if bs[0].free && bs[0].size >= n then 0
    else
      var i := FirstFit(bs[1..], n);
      assert forall j :: 0 < j < i + 1 ==> bs[j] == bs[1..][j - 1];
      i + 1
  }

  /** The payload is cut off and the rest becomes a free block, if the rest is large enough. */
  function Split(bs: seq<Block>, i: nat, n: nat): seq<Block>
    requires i < |bs|
  {
    if n < bs[i].size && bs[i].size - n > MIN_SPLIT then
      bs[..i] + [Block(bs[i].at, n, bs[i].free), Block(bs[i].at + HEADER + n, bs[i].size - n - HEADER, true)] + bs[i + 1..]
    else bs
  }

  /** What a successful malloc does to the block it found. */
  function Carve(bs: seq<Block>, i: nat, n: nat): (r: seq<Block>)
    requires i < |bs|
    ensures |r| >= |bs| && r[i].at == bs[i].at && !r[i].free
  {
    var s := Split(bs, i, n);
    s[i := s[i].(free := false)]
  }

  /** Block `i` of `bs` is two blocks in `r`, and the others are as they were. */
  predicate Divided(bs: seq<Block>, i: nat, n: nat, r: seq<Block>) {
    && i < |bs| && |r| == |bs| + 1
    && r[i] == Block(bs[i].at, n, bs[i].free)
    && r[i + 1].at == bs[i].at + HEADER + n && r[i + 1].size == bs[i].size - n - HEADER && r[i + 1].free
    && (forall j :: 0 <= j < i ==> r[j] == bs[j])
    && (forall j :: i + 2 <= j < |r| ==> r[j] == bs[j - 1])
  }

  lemma SplitDivides(bs: seq<Block>, i: nat, n: nat)
    requires i < |bs| && n < bs[i].size && bs[i].size - n > MIN_SPLIT
    ensures Divided(bs, i, n, Split(bs, i, n))
  {
    InPlaceOf(bs, i, [Block(bs[i].at, n, bs[i].free), Block(bs[i].at + HEADER + n, bs[i].size - n - HEADER, true)]);
  }

  lemma InPlaceOf(bs: seq<Block>, i: nat, two: seq<Block>)
    requires i < |bs| && |two| == 2
    ensures var r := bs[..i] + two + bs[i + 1..];
      && |r| == |bs| + 1 && r[i] == two[0] && r[i + 1] == two[1]
      && (forall j :: 0 <= j < i ==> r[j] == bs[j])
      && (forall j :: i + 2 <= j < |r| ==> r[j] == bs[j - 1])
  {
  }

  lemma Multiples(a: nat, b: nat, c: nat)
    requires a % ALIGNMENT == 0 && b % ALIGNMENT == 0 && c % ALIGNMENT == 0 && a >= b + c
    ensures (a - b - c) % ALIGNMENT == 0
  {
  }

  lemma DividedAdjacent(bs: seq<Block>, i: nat, n: nat, r: seq<Block>, j: nat)
    requires Tiled(bs) && Divided(bs, i, n, r) && j < |r| - 1
    ensures Adjacent(r, j)
  {
    assert if j < i then Adjacent(bs, j) else j == i || Adjacent(bs, j - 1);
  }

  lemma DividedTiled(bs: seq<Block>, i: nat, n: nat, r: seq<Block>)
    requires Tiled(bs) && Divided(bs, i, n, r) && n % ALIGNMENT == 0 && bs[i].size - n > HEADER
    ensures Tiled(r)
  {
    forall j | 0 <= j < |r| - 1 ensures Adjacent(r, j) {
      DividedAdjacent(bs, i, n, r, j);
    }
    forall j | 0 <= j < |r| ensures r[j].size % ALIGNMENT == 0 {
      DividedAligned(bs, i, n, r, j);
    }
    assert r[0].at == 0;
    assert i == |bs| - 1 || r[|r| - 1] == bs[|bs| - 1];
  }

  lemma DividedAligned(bs: seq<Block>, i: nat, n: nat, r: seq<Block>, j: nat)
    requires Tiled(bs) && Divided(bs, i, n, r) && n % ALIGNMENT == 0 && bs[i].size - n > HEADER && j < |r|
    ensures r[j].size % ALIGNMENT == 0
  {
    if j == i + 1 {
      Multiples(bs[i].size, n, HEADER);
    } else {
      assert j == i || r[j] == bs[if j < i then j else j - 1];
    }
  }

  lemma SplitTiled(bs: seq<Block>, i: nat, n: nat)
    requires Tiled(bs) && i < |bs| && n <= bs[i].size && n % ALIGNMENT == 0
    ensures Tiled(Split(bs, i, n)) && n <= Split(bs, i, n)[i].size
  {
    if n < bs[i].size && bs[i].size - n > MIN_SPLIT {
      SplitDivides(bs, i, n);
      DividedTiled(bs, i, n, Split(bs, i, n));
    }
  }

  lemma SplitPairs(bs: seq<Block>, i: nat, n: nat)
    requires i < |bs| && forall j :: PairOk(bs, j)
    ensures forall j :: j != i - 1 && j != i && j != i + 1 ==> PairOk(Split(bs, i, n), j)
    ensures bs[i].free ==> PairOk(Split(bs, i, n), i + 1)
  {
    var r := Split(bs, i, n);
    if |r| > |bs| {
      assert forall j :: i + 2 <= j < |r| ==> r[j] == bs[j - 1];
      assert forall j :: 0 <= j < i ==> r[j] == bs[j];
      forall j | j != i - 1 && j != i && j != i + 1 ensures PairOk(r, j) {
        assert if j < i then PairOk(bs, j) else PairOk(bs, j - 1);
      }
      assert PairOk(bs, i);
    }
  }

  lemma SplitKeeps(bs: seq<Block>, i: nat, n: nat)
    requires Good(bs) && i < |bs| && bs[i].free && n <= bs[i].size && n % ALIGNMENT == 0
    ensures Tiled(Split(bs, i, n)) && n <= Split(bs, i, n)[i].size
    ensures forall j :: j != i - 1 && j != i ==> PairOk(Split(bs, i, n), j)
  {
    CoalescedPairs(bs);
    SplitTiled(bs, i, n);
    SplitPairs(bs, i, n);
  }

  lemma CarveKeeps(bs: seq<Block>, i: nat, n: nat)
    requires Good(bs) && i < |bs| && bs[i].free && n <= bs[i].size && n % ALIGNMENT == 0
    ensures Good(Carve(bs, i, n)) && n <= Carve(bs, i, n)[i].size
  {
    var s, r := Split(bs, i, n), Carve(bs, i, n);
    SplitKeeps(bs, i, n);
    forall j | 0 <= j < |r| - 1 ensures Adjacent(r, j) {
      assert Adjacent(s, j);
    }
    forall j ensures PairOk(r, j) {
      assert j != i - 1 && j != i ==> PairOk(s, j);
    }
    CoalescedPairs(r);
  }

  /** malloc adds exactly one block to those in use and moves none. */
  lemma CarveUsed(bs: seq<Block>, i: nat, n: nat, b: Block)
    requires i < |bs| && bs[i].free && !b.free
    ensures b in Carve(bs, i, n) <==> b in bs || b == Carve(bs, i, n)[i]
  {
    var r := Carve(bs, i, n);
    if b in bs {
      var j :| 0 <= j < |bs| && bs[j] == b;
      assert r[if j < i then j else j + |r| - |bs|] == b;
    }
    if |r| > |bs| {
      assert forall j :: i + 2 <= j < |r| ==> r[j] == bs[j - 1];
      assert forall j :: 0 <= j < i ==> r[j] == bs[j];
    }
  }

  // Release --------------------------------------------------------------------------------------

  /** Block `i` swallows its right neighbour. */
  function Merge(bs: seq<Block>, i: nat): seq<Block>
    requires i + 1 < |bs|
  {
    bs[..i] + [Block(bs[i].at, bs[i].size + HEADER + bs[i + 1].size, bs[i].free)] + bs[i + 2..]
  }

  function Marked(bs: seq<Block>, i: nat, free: bool): seq<Block>
    requires i < |bs|
  {
    bs[i := bs[i].(free := free)]
  }

  function MergeRight(bs: seq<Block>, i: nat): (r: seq<Block>)
    requires i < |bs|
    ensures i < |r| <= |bs|
  {
    if i + 1 < |bs| && bs[i + 1].free then Merge(bs, i) else bs
  }

  function MergeLeft(bs: seq<Block>, i: nat): (r: seq<Block>)
    requires i < |bs|
  {
    if i > 0 && bs[i - 1].free then Merge(bs, i - 1) else bs
  }

  /** What freeing block `i` does. */
  function Release(bs: seq<Block>, i: nat): seq<Block>
    requires i < |bs|
  {
    MergeLeft(MergeRight(Marked(bs, i, true), i), i)
  }

  lemma MergeTiled(bs: seq<Block>, i: nat)
    requires Tiled(bs) && i + 1 < |bs|
    ensures Tiled(Merge(bs, i))
  {
    var r := Merge(bs, i);
    assert forall j :: i < j < |r| ==> r[j] == bs[j + 1];
    assert forall j :: 0 <= j < i ==> r[j] == bs[j];
    assert Adjacent(bs, i);
    forall j | 0 <= j < |r| - 1 ensures Adjacent(r, j) {
      assert if j < i then Adjacent(bs, j) else Adjacent(bs, j + 1);
    }
  }

  lemma MergeUsed(bs: seq<Block>, i: nat, b: Block)
    requires i + 1 < |bs| && bs[i].free && bs[i + 1].free && !b.free
    ensures b in Merge(bs, i) <==> b in bs
  {
    var r := Merge(bs, i);
    if b in bs {
      var j :| 0 <= j < |bs| && bs[j] == b;
      assert r[if j < i then j else j - 1] == b;
    }
    if b in r {
      var j :| 0 <= j < |r| && r[j] == b;
      assert bs[if j < i then j else j + 1] == b;
    }
  }

  /** Block `j` and its right neighbour are not both free. */
  predicate PairOk(bs: seq<Block>, j: int) {
    0 <= j < |bs| - 1 ==> !(bs[j].free && bs[j + 1].free)
  }

  lemma MergePairs(bs: seq<Block>, i: nat)
    requires i + 1 < |bs| && bs[i].free && bs[i + 1].free
    requires forall j :: j != i - 1 && j != i ==> PairOk(bs, j)
    ensures forall j :: j != i - 1 ==> PairOk(Merge(bs, i), j)
    ensures PairOk(bs, i - 1) ==> PairOk(Merge(bs, i), i - 1)
  {
    var r := Merge(bs, i);
    assert forall j :: i < j < |r| ==> r[j] == bs[j + 1];
    assert forall j :: 0 <= j < i ==> r[j] == bs[j];
    forall j | j != i - 1 ensures PairOk(r, j) {
      assert if j < i then PairOk(bs, j) else PairOk(bs, j + 1);
    }
  }

  lemma MergeRightKeeps(bs: seq<Block>, i: nat)
    requires Tiled(bs) && i < |bs| && bs[i].free
    requires forall j :: j != i - 1 && j != i ==> PairOk(bs, j)
    ensures Tiled(MergeRight(bs, i)) && MergeRight(bs, i)[i].free && MergeRight(bs, i)[..i] == bs[..i]
    ensures forall j :: j != i - 1 ==> PairOk(MergeRight(bs, i), j)
  {
    if i + 1 < |bs| && bs[i + 1].free {
      MergeTiled(bs, i);
      MergePairs(bs, i);
    }
  }

  lemma MergeLeftKeeps(bs: seq<Block>, i: nat)
    requires Tiled(bs) && i < |bs| && bs[i].free
    requires forall j :: j != i - 1 ==> PairOk(bs, j)
    ensures Tiled(MergeLeft(bs, i)) && forall j :: PairOk(MergeLeft(bs, i), j)
  {
    if i > 0 && bs[i - 1].free {
      MergeTiled(bs, i - 1);
      MergePairs(bs, i - 1);
    }
  }

  lemma CoalescedPairs(bs: seq<Block>)
    ensures Coalesced(bs) <==> forall j :: PairOk(bs, j)
  {
    if forall j :: PairOk(bs, j) {
      forall i | 0 <= i < |bs| - 1 ensures !(bs[i].free && bs[i + 1].free) {
        assert PairOk(bs, i);
      }
    }
  }

  lemma MarkedPairs(bs: seq<Block>, i: nat)
    requires Good(bs) && i < |bs|
    ensures Tiled(Marked(bs, i, true)) && forall j :: j != i - 1 && j != i ==> PairOk(Marked(bs, i, true), j)
  {
    var r := Marked(bs, i, true);
    forall j | 0 <= j < |r| - 1 ensures Adjacent(r, j) {
      assert Adjacent(bs, j);
    }
  }

  /** Freeing keeps the tiling and leaves no two free neighbours. */
  lemma ReleaseKeeps(bs: seq<Block>, i: nat)
    requires Good(bs) && i < |bs|
    ensures Good(Release(bs, i))
  {
    var f := Marked(bs, i, true);
    MarkedPairs(bs, i);
    MergeRightKeeps(f, i);
    MergeLeftKeeps(MergeRight(f, i), i);
    CoalescedPairs(Release(bs, i));
  }

  /** free takes exactly one block from those in use and moves none. */
  lemma ReleaseUsed(bs: seq<Block>, i: nat, b: Block)
    requires Tiled(bs) && i < |bs| && !bs[i].free && !b.free
    ensures b in Release(bs, i) <==> b in bs && b != bs[i]
  {
    var f := Marked(bs, i, true);
    MarkedUsed(bs, i, b);
    var m := MergeRight(f, i);
    if i + 1 < |f| && f[i + 1].free {
      MergeUsed(f, i, b);
    }
    assert i > 0 ==> m[i - 1] == f[i - 1];
    if i > 0 && m[i - 1].free {
      MergeUsed(m, i - 1, b);
    }
  }

  lemma MarkedUsed(bs: seq<Block>, i: nat, b: Block)
    requires Tiled(bs) && i < |bs| && !bs[i].free && !b.free
    ensures b in Marked(bs, i, true) <==> b in bs && b != bs[i]
  {
    var f := Marked(bs, i, true);
    if b in bs && b != bs[i] {
      var j :| 0 <= j < |bs| && bs[j] == b;
      assert f[j] == b;
    }
    if b in f {
      var j :| 0 <= j < |f| && f[j] == b;
      assert bs[j] == b && j != i;
      if j < i {
        Ordered(bs, j, i);
      } else {
        Ordered(bs, i, j);
      }
    }
  }

  /** Freeing a block right after its allocation restores the list exactly, split or not. */
  lemma ReleaseUndoesCarve(bs: seq<Block>, i: nat, n: nat)
    requires Good(bs) && i < |bs| && bs[i].free && n <= bs[i].size
    ensures Release(Carve(bs, i, n), i) == bs
  {
    var c := Carve(bs, i, n);
    var f := Marked(c, i, true);
    var m := MergeRight(f, i);
    if |c| > |bs| {
      assert f[i + 1].free;
      assert f[i + 2..] == bs[i + 1..];
      assert m[i] == bs[i];
    } else {
      assert f == bs;
    }
    assert m == bs;
  }

  // Everything freed --------------------------------------------------------------------------------

  predicate NoneUsed(bs: seq<Block>) {
    forall b :: b in bs ==> b.free
  }

  lemma OneInUse(bs: seq<Block>)
    requires Coalesced(bs) && |bs| > 1
    ensures !NoneUsed(bs)
  {
    assert !(bs[0].free && bs[1].free);
    assert bs[0] in bs && bs[1] in bs;
  }

  lemma AllFreeIsInitial(bs: seq<Block>)
    requires Good(bs) && NoneUsed(bs)
    ensures bs == INITIAL
  {
    if |bs| > 1 {
      OneInUse(bs);
    }
    assert bs == [bs[0]];
  }

  function IndexOf(bs: seq<Block>, b: Block): (i: nat)
    requires b in bs
    ensures i < |bs| && bs[i] == b
  {
    if bs[0] == b then 0 else 1 + IndexOf(bs[1..], b)
  }

  /** The blocks of `order` are in use, and each is listed once. */
  predicate Releasable(bs: seq<Block>, order: seq<Block>) {
    && (forall k :: 0 <= k < |order| ==> order[k] in bs && !order[k].free)
    && (forall k, l :: 0 <= k < l < |order| ==> order[k] != order[l])
  }

  lemma ReleaseFirst(bs: seq<Block>, order: seq<Block>)
    requires Good(bs) && Releasable(bs, order) && order != []
    ensures Releasable(Release(bs, IndexOf(bs, order[0])), order[1..])
    ensures Good(Release(bs, IndexOf(bs, order[0])))
  {
    var i := IndexOf(bs, order[0]);
    ReleaseKeeps(bs, i);
    forall k | 0 <= k < |order[1..]| ensures order[1..][k] in Release(bs, i) {
      ReleaseUsed(bs, i, order[k + 1]);
    }
  }

  function ReleaseAll(bs: seq<Block>, order: seq<Block>): seq<Block>
    requires Good(bs) && Releasable(bs, order)
    decreases |order|
  {
    if order == [] then bs
    else
      ReleaseFirst(bs, order);
      ReleaseAll(Release(bs, IndexOf(bs, order[0])), order[1..])
  }

  /** Freeing every block in use, in any order, ends with the one initial free block. */
  lemma {:induction false} ReleaseAllIsInitial(bs: seq<Block>, order: seq<Block>)
    requires Good(bs) && Releasable(bs, order)
    requires forall b :: b in bs && !b.free ==> b in order
    ensures ReleaseAll(bs, order) == INITIAL
    decreases |order|
  {
    if order == [] {
      AllFreeIsInitial(bs);
    } else {
      var i := IndexOf(bs, order[0]);
      var r := Release(bs, i);
      ReleaseFirst(bs, order);
      forall b | b in r && !b.free ensures b in order[1..] {
        ReleaseUsed(bs, i, b);
        var k :| 0 <= k < |order| && order[k] == b;
        assert order[1..][k - 1] == b;
      }
      ReleaseAllIsInitial(r, order[1..]);
    }
  }

  // Statistics -----------------------------------------------------------------------------------------

  function TotalSize(bs: seq<Block>, free: bool): nat {
    if bs == [] then 0
    else TotalSize(bs[..|bs| - 1], free) + (if bs[|bs| - 1].free == free then bs[|bs| - 1].size else 0)
  }

  function Count(bs: seq<Block>, free: bool): nat {
    if bs == [] then 0
    else Count(bs[..|bs| - 1], free) + (if bs[|bs| - 1].free == free then 1 else 0)
  }

  function Largest(bs: seq<Block>): nat {
    if bs == [] then 0
    else
      var b, rest := bs[|bs| - 1], Largest(bs[..|bs| - 1]);
      if b.free && b.size > rest then b.size else rest
  }

  lemma {:induction false} PrefixBytes(bs: seq<Block>, k: nat)
    requires Tiled(bs) && 0 < k <= |bs|
    ensures TotalSize(bs[..k], true) + TotalSize(bs[..k], false) + HEADER * k == End(bs[k - 1])
    ensures Count(bs[..k], true) + Count(bs[..k], false) == k
  {
    assert bs[..k][..k - 1] == bs[..k - 1];
    if k > 1 {
      assert Adjacent(bs, k - 2);
      PrefixBytes(bs, k - 1);
    } else {
      assert bs[..0] == [];
    }
  }

  /** Conservation: payload in use, free payload and all headers but the first make up the
      total that the statistics report. */
  lemma StatisticsAddUp(bs: seq<Block>)
    requires Tiled(bs)
    ensures TotalSize(bs, false) + TotalSize(bs, true) + HEADER * (Count(bs, false) + Count(bs, true) - 1) == HEAP_SIZE - HEADER
  {
    PrefixBytes(bs, |bs|);
    assert bs[..|bs|] == bs;
  }

  lemma {:induction false} TotalsConcat(a: seq<Block>, b: seq<Block>, free: bool)
    ensures TotalSize(a + b, free) == TotalSize(a, free) + TotalSize(b, free)
    ensures Count(a + b, free) == Count(a, free) + Count(b, free)
  {
    if b == [] {
      assert a + b == a;
    } else {
      var init, last := b[..|b| - 1], b[|b| - 1];
      assert (a + b)[..|a + b| - 1] == a + init && (a + b)[|a + b| - 1] == last;
      TotalsConcat(a, init, free);
    }
  }

  lemma TotalsOfOne(b: Block, free: bool)
    ensures TotalSize([b], free) == (if b.free == free then b.size else 0)
    ensures Count([b], free) == (if b.free == free then 1 else 0)
  {
    assert [b][..0] == [];
  }

  lemma TotalsAt(bs: seq<Block>, i: nat, free: bool)
    requires i < |bs|
    ensures TotalSize(bs, free) ==
            TotalSize(bs[..i], free) + (if bs[i].free == free then bs[i].size else 0) + TotalSize(bs[i + 1..], free)
    ensures Count(bs, free) == Count(bs[..i], free) + (if bs[i].free == free then 1 else 0) + Count(bs[i + 1..], free)
  {
    assert bs == bs[..i] + [bs[i]] + bs[i + 1..];
    TotalsConcat(bs[..i] + [bs[i]], bs[i + 1..], free);
    TotalsConcat(bs[..i], [bs[i]], free);
    TotalsOfOne(bs[i], free);
  }

  // What an allocation takes -------------------------------------------------------------------------

  /** A block for `n` bytes has been taken at index `i`: where more than 24 bytes would be left over, the block
      has `n` bytes and the rest, less a header of 16, is a free block behind it; otherwise it is taken whole. */
  predicate TakenAt(bs: seq<Block>, i: nat, n: nat, r: seq<Block>) {
    && i < |bs| && i < |r| && r[i].at == bs[i].at && !r[i].free && n <= r[i].size <= n + 24
    && r[..i] == bs[..i]
    && (if bs[i].size <= n + 24 then
          |r| == |bs| && r[i].size == bs[i].size && r[i + 1..] == bs[i + 1..]
        else
          && |r| == |bs| + 1 && r[i].size == n
          && r[i + 1] == Block(bs[i].at + 16 + n, bs[i].size - n - 16, true) && r[i + 2..] == bs[i + 1..])
  }

  /** The statistics then: the block's bytes have become used ones, and a header more has gone where a block
      was divided. */
  predicate TakenStatistics(bs: seq<Block>, i: nat, n: nat, r: seq<Block>)
    requires i < |bs| && i < |r|
  {
    && TotalSize(r, false) == TotalSize(bs, false) + r[i].size
    && TotalSize(r, true) + r[i].size + (if bs[i].size <= n + 24 then 0 else 16) == TotalSize(bs, true)
    && Count(r, false) == Count(bs, false) + 1
    && Count(r, true) == if bs[i].size <= n + 24 then Count(bs, true) - 1 else Count(bs, true)
  }

  lemma CarveTakes(bs: seq<Block>, i: nat, n: nat)
    requires i < |bs| && bs[i].free && n <= bs[i].size
    ensures TakenAt(bs, i, n, Carve(bs, i, n)) && TakenStatistics(bs, i, n, Carve(bs, i, n))
  {
    var r := Carve(bs, i, n);
    TotalsAt(bs, i, false);
    TotalsAt(bs, i, true);
    TotalsAt(r, i, false);
    TotalsAt(r, i, true);
    if bs[i].size > n + 24 {
      var rest := r[i + 1..];
      TotalsAt(rest, 0, false);
      TotalsAt(rest, 0, true);
      assert rest[..0] == [] && rest[1..] == bs[i + 1..] == r[i + 2..];
    }
  }

  /** Freeing a block turns exactly its bytes from used into free ones; headers that vanish are free too. */
  lemma ReleaseStatistics(bs: seq<Block>, i: nat)
    requires Good(bs) && i < |bs| && !bs[i].free
    ensures var r := Release(bs, i);
      && TotalSize(r, false) + bs[i].size == TotalSize(bs, false) && Count(r, false) + 1 == Count(bs, false)
      && TotalSize(r, true) == TotalSize(bs, true) + bs[i].size + 16 * (|bs| - |r|)
  {
    var marked := Marked(bs, i, true);
    var right := MergeRight(marked, i);
    TotalsAt(bs, i, false);
    TotalsAt(bs, i, true);
    TotalsAt(marked, i, false);
    TotalsAt(marked, i, true);
    assert marked[..i] == bs[..i] && marked[i + 1..] == bs[i + 1..];
    if i + 1 < |marked| && marked[i + 1].free {
      MergeTotals(marked, i);
    }
    if i > 0 && right[i - 1].free {
      MergeTotals(right, i - 1);
    }
  }

  lemma MergeTotals(bs: seq<Block>, i: nat)
    requires i + 1 < |bs| && bs[i].free && bs[i + 1].free
    ensures var r := Merge(bs, i);
      && |r| == |bs| - 1 && TotalSize(r, false) == TotalSize(bs, false) && Count(r, false) == Count(bs, false)
      && TotalSize(r, true) == TotalSize(bs, true) + HEADER
  {
    var r := Merge(bs, i);
    var rest := bs[i + 1..];
    assert r[..i] == bs[..i] && r[i + 1..] == bs[i + 2..] == rest[1..] && rest[..0] == [];
    TotalsAt(bs, i, false);
    TotalsAt(bs, i, true);
    TotalsAt(rest, 0, false);
    TotalsAt(rest, 0, true);
    TotalsAt(r, i, false);
    TotalsAt(r, i, true);
  }

  lemma {:induction false} LargestBounds(bs: seq<Block>, n: nat)
    requires n > 0
    ensures n <= Largest(bs) <==> exists i :: 0 <= i < |bs| && bs[i].free && bs[i].size >= n
  {
    if bs != [] {
      var init := bs[..|bs| - 1];
      LargestBounds(init, n);
      if n <= Largest(init) {
        var i :| 0 <= i < |init| && init[i].free && init[i].size >= n;
        assert bs[i].free && bs[i].size >= n;
      }
      if n <= Largest(bs) && !(n <= Largest(init)) {
        assert bs[|bs| - 1].free && bs[|bs| - 1].size >= n;
      }
      if i :| 0 <= i < |bs| && bs[i].free && bs[i].size >= n {
        assert i < |init| ==> init[i] == bs[i];
      }
    }
  }

  /** An allocation succeeds exactly when it is no larger than the largest free block. */
  lemma FitIffLargest(bs: seq<Block>, n: nat)
    requires n > 0
    ensures FirstFit(bs, n) < |bs| <==> n <= Largest(bs)
  {
    LargestBounds(bs, n);
  }
}
