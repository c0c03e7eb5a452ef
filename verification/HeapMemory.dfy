/** Block headers in the bytes of the arena: what each header says, and which bytes the list
    operations touch. */
module HeapMemory {
  import opened Bytes
  import opened HeapBlocks

  function LoadWord(s: seq<byte>, o: nat): u32
    requires o + 4 <= |s|
  {
    DecodeU32(s[o..o + 4])
  }

  function StoreWord(s: seq<byte>, o: nat, v: u32): (t: seq<byte>)
    requires o + 4 <= |s|
    ensures |t| == |s|
    ensures forall p :: 0 <= p < |s| && !(o <= p < o + 4) ==> t[p] == s[p]
  {
    s[..o] + EncodeU32(v) + s[o + 4..]
  }

  lemma LoadStored(s: seq<byte>, o: nat, v: u32, p: nat)
    requires o + 4 <= |s| && p + 4 <= |s| && (p == o || p + 4 <= o || o + 4 <= p)
    ensures LoadWord(StoreWord(s, o, v), p) == if p == o then v else LoadWord(s, p)
  {
    var t := StoreWord(s, o, v);
    if p == o {
      assert t[o..o + 4] == EncodeU32(v);
      U32RoundTrip(v);
    } else {
      assert t[p..p + 4] == s[p..p + 4];
    }
  }

  /** struct block_header; pointers are addresses, 0 is the null pointer. */
  datatype Header = Header(size: nat, next: nat, prev: nat, free: bool)

  function HeaderAt(s: seq<byte>, a: nat): Header
    requires a + HEADER <= |s|
  {
    Header(LoadWord(s, a), LoadWord(s, a + 4), LoadWord(s, a + 8), s[a + 12] != 0)
  }

  datatype Change = Size(v: u32) | Next(v: u32) | Prev(v: u32) | Mark(free: bool)

  /** One field of the header at `h` is assigned. */
  function Assign(s: seq<byte>, h: nat, c: Change): (t: seq<byte>)
    requires h + HEADER <= |s|
    ensures |t| == |s|
    ensures forall p :: 0 <= p < |s| && !(h <= p < h + HEADER) ==> t[p] == s[p]
  {
    match c
    case Size(v) => StoreWord(s, h, v)
    case Next(v) => StoreWord(s, h + 4, v)
    case Prev(v) => StoreWord(s, h + 8, v)
    case Mark(free) => s[h + 12 := if free then 1 else 0]
  }

  function Changed(x: Header, c: Change): Header {
    match c
    case Size(v) => x.(size := v)
    case Next(v) => x.(next := v)
    case Prev(v) => x.(prev := v)
    case Mark(free) => x.(free := free)
  }

  predicate Apart(a: nat, h: nat) {
    a == h || a + HEADER <= h || h + HEADER <= a
  }

  /** One word of a header is stored. */
  lemma WordStored(s: seq<byte>, h: nat, o: nat, v: u32)
    requires h + HEADER <= |s| && (o == h || o == h + 4 || o == h + 8)
    ensures var x, y := HeaderAt(s, h), HeaderAt(StoreWord(s, o, v), h);
      y == Header(if o == h then v else x.size, if o == h + 4 then v else x.next, if o == h + 8 then v else x.prev, x.free)
  {
    LoadStored(s, o, v, h);
    LoadStored(s, o, v, h + 4);
    LoadStored(s, o, v, h + 8);
  }

  lemma MarkStored(s: seq<byte>, h: nat, free: bool)
    requires h + HEADER <= |s|
    ensures HeaderAt(s[h + 12 := if free then 1 else 0], h) == HeaderAt(s, h).(free := free)
  {
    var t := s[h + 12 := if free then 1 else 0];
    assert t[h..h + 4] == s[h..h + 4] && t[h + 4..h + 8] == s[h + 4..h + 8] && t[h + 8..h + 12] == s[h + 8..h + 12];
  }

  lemma AssignedHere(s: seq<byte>, h: nat, c: Change)
    requires h + HEADER <= |s|
    ensures HeaderAt(Assign(s, h, c), h) == Changed(HeaderAt(s, h), c)
  {
    match c
    case Size(v) => WordStored(s, h, h, v);
    case Next(v) => WordStored(s, h, h + 4, v);
    case Prev(v) => WordStored(s, h, h + 8, v);
    case Mark(free) => MarkStored(s, h, free);
  }

  /** Equal bytes make equal headers. */
  lemma SameHeader(s: seq<byte>, t: seq<byte>, a: nat)
    requires |s| == |t| && a + HEADER <= |s|
    requires forall p :: a <= p < a + HEADER ==> t[p] == s[p]
    ensures HeaderAt(t, a) == HeaderAt(s, a)
  {
    assert t[a..a + 4] == s[a..a + 4] && t[a + 4..a + 8] == s[a + 4..a + 8] && t[a + 8..a + 12] == s[a + 8..a + 12];
  }

  /** Assigning a field changes that field of that header and no other header. */
  lemma Assigned(s: seq<byte>, h: nat, c: Change, a: nat)
    requires h + HEADER <= |s| && a + HEADER <= |s| && Apart(a, h)
    ensures HeaderAt(Assign(s, h, c), a) == if a == h then Changed(HeaderAt(s, h), c) else HeaderAt(s, a)
  {
    if a == h {
      AssignedHere(s, h, c);
    } else {
      SameHeader(s, Assign(s, h, c), a);
    }
  }

  // The list in memory -----------------------------------------------------------------------

  function Pointer(base: nat, bs: seq<Block>, i: int): nat {
    if 0 <= i < |bs| then base + bs[i].at else 0
  }

  function Expected(base: nat, bs: seq<Block>, i: nat): Header
    requires i < |bs|
  {
    Header(bs[i].size, Pointer(base, bs, i + 1), Pointer(base, bs, i - 1), bs[i].free)
  }

  ghost predicate HeaderOk(s: seq<byte>, base: nat, bs: seq<Block>, i: nat)
    requires i < |bs|
  {
    bs[i].at + HEADER <= |s| && HeaderAt(s, bs[i].at) == Expected(base, bs, i)
  }

  /** The bytes hold the headers of the blocks, with `next` and `prev` mutually inverse. */
  ghost predicate Represents(s: seq<byte>, base: nat, bs: seq<Block>) {
    && |s| == HEAP_SIZE
    && (forall i {:trigger HeaderOk(s, base, bs, i)} :: 0 <= i < |bs| ==> HeaderOk(s, base, bs, i))
  }

  /** The bytes of a block's payload are the same. */
  ghost predicate Kept(s: seq<byte>, t: seq<byte>, b: Block) {
    |s| == |t| && forall p :: b.at + HEADER <= p < End(b) && p < |s| ==> t[p] == s[p]
  }

  ghost predicate AllKept(s: seq<byte>, t: seq<byte>, bs: seq<Block>) {
    forall j {:trigger Kept(s, t, bs[j])} :: 0 <= j < |bs| ==> Kept(s, t, bs[j])
  }

  lemma HeadersApart(bs: seq<Block>, i: nat, j: nat)
    requires Tiled(bs) && i < |bs| && j < |bs|
    ensures Apart(bs[i].at, bs[j].at) && bs[i].at + HEADER <= HEAP_SIZE
    ensures i != j ==> bs[i].at != bs[j].at
  {
    Aligned(bs, i);
    if i < j {
      Ordered(bs, i, j);
    } else if j < i {
      Ordered(bs, j, i);
    }
  }

  /** Assigning a header's field touches no payload. */
  lemma HeaderOutside(s: seq<byte>, bs: seq<Block>, i: nat, c: Change)
    requires Tiled(bs) && |s| == HEAP_SIZE && i < |bs| && bs[i].at + HEADER <= HEAP_SIZE
    ensures AllKept(s, Assign(s, bs[i].at, c), bs)
  {
    var t := Assign(s, bs[i].at, c);
    forall j | 0 <= j < |bs| ensures Kept(s, t, bs[j]) {
      forall p | bs[j].at + HEADER <= p < End(bs[j]) && p < |s| ensures t[p] == s[p] {
        if j != i {
          PayloadsDisjoint(bs, j, i, p);
        }
      }
    }
  }

  lemma KeptConcat(s: seq<byte>, t: seq<byte>, u: seq<byte>, bs: seq<Block>)
    requires AllKept(s, t, bs) && AllKept(t, u, bs)
    ensures AllKept(s, u, bs)
  {
    forall j | 0 <= j < |bs| ensures Kept(s, u, bs[j]) {
      assert Kept(s, t, bs[j]) && Kept(t, u, bs[j]);
    }
  }

  // Marking --------------------------------------------------------------------------------------

  lemma MarkTiled(bs: seq<Block>, i: nat, free: bool)
    requires Tiled(bs) && i < |bs|
    ensures Tiled(Marked(bs, i, free))
  {
    var r := Marked(bs, i, free);
    forall j | 0 <= j < |r| - 1 ensures Adjacent(r, j) {
      assert Adjacent(bs, j);
    }
  }

  lemma MarkHeader(s: seq<byte>, base: nat, bs: seq<Block>, i: nat, free: bool, j: nat)
    requires Tiled(bs) && |s| == HEAP_SIZE && i < |bs| && j < |bs| && HeaderOk(s, base, bs, j)
    requires bs[i].at + HEADER <= HEAP_SIZE
    ensures HeaderOk(Assign(s, bs[i].at, Mark(free)), base, Marked(bs, i, free), j)
  {
    HeadersApart(bs, j, i);
    Assigned(s, bs[i].at, Mark(free), bs[j].at);
  }

  lemma MarkRepresents(s: seq<byte>, base: nat, bs: seq<Block>, i: nat, free: bool)
    requires Tiled(bs) && Represents(s, base, bs) && i < |bs|
    ensures bs[i].at + HEADER <= HEAP_SIZE
    ensures Represents(Assign(s, bs[i].at, Mark(free)), base, Marked(bs, i, free))
    ensures AllKept(s, Assign(s, bs[i].at, Mark(free)), bs)
  {
    assert HeaderOk(s, base, bs, i);
    var t, r := Assign(s, bs[i].at, Mark(free)), Marked(bs, i, free);
    forall j | 0 <= j < |r| ensures HeaderOk(t, base, r, j) {
      assert HeaderOk(s, base, bs, j);
      MarkHeader(s, base, bs, i, free, j);
    }
    HeaderOutside(s, bs, i, Mark(free));
  }

  // Merging --------------------------------------------------------------------------------------

  predicate Fits(bs: seq<Block>, i: nat) {
    i < |bs| ==> bs[i].at + HEADER <= HEAP_SIZE
  }

  /** The assignments by which block `i` swallows its right neighbour. */
  function MergeImage(s: seq<byte>, bs: seq<Block>, i: nat, size: u32, next: u32, left: u32): (t: seq<byte>)
    requires |s| == HEAP_SIZE && i + 1 < |bs| && Fits(bs, i) && Fits(bs, i + 2)
    ensures |t| == |s|
  {
    var s2 := Assign(Assign(s, bs[i].at, Size(size)), bs[i].at, Next(next));
    if i + 2 < |bs| then Assign(s2, bs[i + 2].at, Prev(left)) else s2
  }

  /** One header after a merge. */
  lemma MergeHeader(s: seq<byte>, bs: seq<Block>, i: nat, size: u32, next: u32, left: u32, j: nat)
    requires |s| == HEAP_SIZE && i + 1 < |bs| && j < |bs| && Fits(bs, i) && Fits(bs, i + 2) && Fits(bs, j)
    requires Apart(bs[j].at, bs[i].at) && (j != i ==> bs[j].at != bs[i].at)
    requires i + 2 < |bs| ==> Apart(bs[j].at, bs[i + 2].at) && (j != i + 2 ==> bs[j].at != bs[i + 2].at)
    ensures var x := HeaderAt(s, bs[j].at);
      HeaderAt(MergeImage(s, bs, i, size, next, left), bs[j].at) ==
        if j == i then x.(size := size, next := next) else if j == i + 2 then x.(prev := left) else x
  {
    var s1 := Assign(s, bs[i].at, Size(size));
    var s2 := Assign(s1, bs[i].at, Next(next));
    Assigned(s, bs[i].at, Size(size), bs[j].at);
    Assigned(s1, bs[i].at, Next(next), bs[j].at);
    if i + 2 < |bs| {
      Assigned(s2, bs[i + 2].at, Prev(left), bs[j].at);
    }
  }

  lemma MergeExpected(base: nat, bs: seq<Block>, i: nat, j: nat)
    requires i + 1 < |bs| && j < |bs| && j != i + 1
    ensures var r, k := Merge(bs, i), if j <= i then j else j - 1;
      var x := Expected(base, bs, j);
      && r[k].at == bs[j].at
      && Expected(base, r, k) ==
         if j == i then x.(size := bs[i].size + HEADER + bs[i + 1].size, next := Pointer(base, bs, i + 2))
         else if j == i + 2 then x.(prev := Pointer(base, bs, i)) else x
  {
  }

  /** A header after a merge; its block is number `k` of the new list. */
  lemma MergeHeaderOk(s: seq<byte>, base: nat, bs: seq<Block>, i: nat, size: u32, next: u32, left: u32,
                      t: seq<byte>, r: seq<Block>, j: nat, k: nat)
    requires |s| == HEAP_SIZE && Tiled(bs) && i + 1 < |bs| && j < |bs| && j != i + 1 && Fits(bs, i) && Fits(bs, i + 2)
    requires HeaderOk(s, base, bs, j) && k == (if j <= i then j else j - 1)
    requires size == bs[i].size + HEADER + bs[i + 1].size && next == Pointer(base, bs, i + 2) && left == Pointer(base, bs, i)
    requires t == MergeImage(s, bs, i, size, next, left) && r == Merge(bs, i)
    ensures k < |r| && HeaderOk(t, base, r, k)
  {
    HeadersApart(bs, j, i);
    if i + 2 < |bs| {
      HeadersApart(bs, j, i + 2);
    }
    MergeHeader(s, bs, i, size, next, left, j);
    MergeExpected(base, bs, i, j);
  }

  lemma MergeHeaderOkAt(s: seq<byte>, base: nat, bs: seq<Block>, i: nat, size: u32, next: u32, left: u32,
                        t: seq<byte>, r: seq<Block>, k: nat)
    requires Tiled(bs) && Represents(s, base, bs) && i + 1 < |bs| && Fits(bs, i) && Fits(bs, i + 2)
    requires size == bs[i].size + HEADER + bs[i + 1].size && next == Pointer(base, bs, i + 2) && left == Pointer(base, bs, i)
    requires t == MergeImage(s, bs, i, size, next, left) && r == Merge(bs, i) && k < |r| == |bs| - 1
    ensures HeaderOk(t, base, r, k)
  {
    var j := if k <= i then k else k + 1;
    assert HeaderOk(s, base, bs, j);
    MergeHeaderOk(s, base, bs, i, size, next, left, t, r, j, k);
  }

  lemma MergeRepresents(s: seq<byte>, base: nat, bs: seq<Block>, i: nat, size: u32, next: u32, left: u32)
    requires Tiled(bs) && Represents(s, base, bs) && i + 1 < |bs|
    requires size == bs[i].size + HEADER + bs[i + 1].size && next == Pointer(base, bs, i + 2) && left == Pointer(base, bs, i)
    ensures Fits(bs, i) && Fits(bs, i + 2)
    ensures Represents(MergeImage(s, bs, i, size, next, left), base, Merge(bs, i))
    ensures AllKept(s, MergeImage(s, bs, i, size, next, left), bs)
  {
    assert HeaderOk(s, base, bs, i) && (i + 2 < |bs| ==> HeaderOk(s, base, bs, i + 2));
    var t, r := MergeImage(s, bs, i, size, next, left), Merge(bs, i);
    forall k | 0 <= k < |r| ensures HeaderOk(t, base, r, k) {
      MergeHeaderOkAt(s, base, bs, i, size, next, left, t, r, k);
    }
    MergeKept(s, bs, i, size, next, left);
  }

  lemma MergeKept(s: seq<byte>, bs: seq<Block>, i: nat, size: u32, next: u32, left: u32)
    requires Tiled(bs) && |s| == HEAP_SIZE && i + 1 < |bs| && Fits(bs, i) && Fits(bs, i + 2)
    ensures AllKept(s, MergeImage(s, bs, i, size, next, left), bs)
  {
    var s1 := Assign(s, bs[i].at, Size(size));
    var s2 := Assign(s1, bs[i].at, Next(next));
    HeaderOutside(s, bs, i, Size(size));
    HeaderOutside(s1, bs, i, Next(next));
    KeptConcat(s, s1, s2, bs);
    if i + 2 < |bs| {
      HeaderOutside(s2, bs, i + 2, Prev(left));
      KeptConcat(s, s2, Assign(s2, bs[i + 2].at, Prev(left)), bs);
    }
  }

  // Splitting --------------------------------------------------------------------------------------

  /** The header of the new block at `b`, and the back pointer of the block after it. */
  function CreateImage(s: seq<byte>, bs: seq<Block>, i: nat, b: nat, rest: u32, next: u32, block: u32,
                       created: u32): (t: seq<byte>)
    requires |s| == HEAP_SIZE && i < |bs| && b + HEADER <= HEAP_SIZE && Fits(bs, i + 1)
    ensures |t| == |s|
  {
    var s4 := Assign(Assign(Assign(Assign(s, b, Size(rest)), b, Mark(true)), b, Prev(block)), b, Next(next));
    if i + 1 < |bs| then Assign(s4, bs[i + 1].at, Prev(created)) else s4
  }

  /** The assignments that turn the end of block `i` into a new block at `b`. */
  function SplitImage(s: seq<byte>, bs: seq<Block>, i: nat, n: u32, b: nat, rest: u32, next: u32, block: u32,
                      created: u32): (t: seq<byte>)
    requires |s| == HEAP_SIZE && i < |bs| && b + HEADER <= HEAP_SIZE && Fits(bs, i) && Fits(bs, i + 1)
    ensures |t| == |s|
  {
    var s5 := CreateImage(s, bs, i, b, rest, next, block, created);
    Assign(Assign(s5, bs[i].at, Size(n)), bs[i].at, Next(created))
  }

  lemma CreateHeader(s: seq<byte>, bs: seq<Block>, i: nat, b: nat, rest: u32, next: u32, block: u32, created: u32, a: nat)
    requires |s| == HEAP_SIZE && i < |bs| && b + HEADER <= HEAP_SIZE && Fits(bs, i + 1)
    requires a + HEADER <= HEAP_SIZE && Apart(a, b)
    requires i + 1 < |bs| ==> Apart(a, bs[i + 1].at) && bs[i + 1].at != b
    ensures HeaderAt(CreateImage(s, bs, i, b, rest, next, block, created), a) ==
            if a == b then Header(rest, next, block, true)
            else if i + 1 < |bs| && a == bs[i + 1].at then HeaderAt(s, a).(prev := created)
            else HeaderAt(s, a)
  {
    var s1 := Assign(s, b, Size(rest));
    var s2 := Assign(s1, b, Mark(true));
    var s3 := Assign(s2, b, Prev(block));
    var s4 := Assign(s3, b, Next(next));
    Assigned(s, b, Size(rest), a);
    Assigned(s1, b, Mark(true), a);
    Assigned(s2, b, Prev(block), a);
    Assigned(s3, b, Next(next), a);
    if i + 1 < |bs| {
      Assigned(s4, bs[i + 1].at, Prev(created), a);
    }
  }

  lemma SplitHeader(s: seq<byte>, bs: seq<Block>, i: nat, n: u32, b: nat, rest: u32, next: u32, block: u32, created: u32, a: nat)
    requires |s| == HEAP_SIZE && i < |bs| && b + HEADER <= HEAP_SIZE && Fits(bs, i) && Fits(bs, i + 1)
    requires a + HEADER <= HEAP_SIZE && Apart(a, b) && Apart(a, bs[i].at) && bs[i].at != b
    requires i + 1 < |bs| ==> Apart(a, bs[i + 1].at) && bs[i + 1].at != b && bs[i + 1].at != bs[i].at
    ensures HeaderAt(SplitImage(s, bs, i, n, b, rest, next, block, created), a) ==
            if a == b then Header(rest, next, block, true)
            else if a == bs[i].at then HeaderAt(s, a).(size := n, next := created)
            else if i + 1 < |bs| && a == bs[i + 1].at then HeaderAt(s, a).(prev := created)
            else HeaderAt(s, a)
  {
    var s5 := CreateImage(s, bs, i, b, rest, next, block, created);
    CreateHeader(s, bs, i, b, rest, next, block, created, a);
    Assigned(s5, bs[i].at, Size(n), a);
    Assigned(Assign(s5, bs[i].at, Size(n)), bs[i].at, Next(created), a);
  }

  /** What the headers must say after block `i` was split in two. */
  lemma SplitExpected(base: nat, bs: seq<Block>, i: nat, n: nat, j: nat)
    requires i < |bs| && n < bs[i].size && bs[i].size - n > MIN_SPLIT && j < |bs|
    ensures var r, k := Split(bs, i, n), if j <= i then j else j + 1;
      var x := Expected(base, bs, j);
      && |r| == |bs| + 1 && r[k].at == bs[j].at
      && Expected(base, r, k) ==
         (if j == i then x.(size := n, next := base + bs[i].at + HEADER + n)
          else if j == i + 1 then x.(prev := base + bs[i].at + HEADER + n) else x)
      && r[i + 1].at == bs[i].at + HEADER + n
      && Expected(base, r, i + 1) == Header(bs[i].size - n - HEADER, Pointer(base, bs, i + 1), Pointer(base, bs, i), true)
  {
  }

  /** The numbers that split_block stores. */
  predicate SplitValues(base: nat, bs: seq<Block>, i: nat, n: u32, b: nat, rest: u32, next: u32, block: u32, created: u32) {
    && i < |bs| && n < bs[i].size && bs[i].size - n > MIN_SPLIT
    && b == bs[i].at + HEADER + n && rest == bs[i].size - n - HEADER
    && next == Pointer(base, bs, i + 1) && block == Pointer(base, bs, i) && created == base + b
  }

  /** The new header lies inside the payload that is split. */
  lemma NewHeaderApart(bs: seq<Block>, i: nat, b: nat, j: nat)
    requires Tiled(bs) && i < |bs| && j < |bs| && bs[i].at + HEADER <= b && b + HEADER <= End(bs[i])
    ensures Apart(bs[j].at, b) && bs[j].at != b && bs[j].at + HEADER <= HEAP_SIZE && b + HEADER <= HEAP_SIZE
  {
    Aligned(bs, i);
    Aligned(bs, j);
    if i < j {
      Ordered(bs, i, j);
    } else if j < i {
      Ordered(bs, j, i);
    }
  }

  /** An old header after a split; its block is number `k` of the new list. */
  lemma SplitHeaderOk(s: seq<byte>, base: nat, bs: seq<Block>, i: nat, n: u32, b: nat, rest: u32, next: u32, block: u32,
                      created: u32, t: seq<byte>, r: seq<Block>, j: nat, k: nat)
    requires |s| == HEAP_SIZE && Tiled(bs) && SplitValues(base, bs, i, n, b, rest, next, block, created)
    requires j < |bs| && k == (if j <= i then j else j + 1)
    requires HeaderOk(s, base, bs, j) && Fits(bs, i) && Fits(bs, i + 1) && b + HEADER <= HEAP_SIZE
    requires t == SplitImage(s, bs, i, n, b, rest, next, block, created) && r == Split(bs, i, n)
    ensures k < |r| && HeaderOk(t, base, r, k)
  {
    OldHeaderAt(s, bs, i, n, b, rest, next, block, created, j);
    SplitExpected(base, bs, i, n, j);
  }

  /** The bytes of an old header after the stores of a split. */
  lemma OldHeaderAt(s: seq<byte>, bs: seq<Block>, i: nat, n: u32, b: nat, rest: u32, next: u32, block: u32, created: u32, j: nat)
    requires |s| == HEAP_SIZE && Tiled(bs) && i < |bs| && j < |bs| && bs[i].at + HEADER <= b && b + HEADER <= End(bs[i])
    requires Fits(bs, i) && Fits(bs, i + 1) && Fits(bs, j) && b + HEADER <= HEAP_SIZE
    ensures HeaderAt(SplitImage(s, bs, i, n, b, rest, next, block, created), bs[j].at) ==
            if j == i then HeaderAt(s, bs[j].at).(size := n, next := created)
            else if j == i + 1 then HeaderAt(s, bs[j].at).(prev := created)
            else HeaderAt(s, bs[j].at)
  {
    OldHeadersApart(bs, i, b, j);
    SplitHeader(s, bs, i, n, b, rest, next, block, created, bs[j].at);
  }

  lemma OldHeadersApart(bs: seq<Block>, i: nat, b: nat, j: nat)
    requires Tiled(bs) && i < |bs| && j < |bs| && bs[i].at + HEADER <= b && b + HEADER <= End(bs[i])
    ensures bs[j].at != b && bs[i].at != b && Apart(bs[j].at, b) && Apart(bs[j].at, bs[i].at)
    ensures bs[j].at == bs[i].at <==> j == i
    ensures i + 1 < |bs| ==>
              && Apart(bs[j].at, bs[i + 1].at) && bs[i + 1].at != b && bs[i + 1].at != bs[i].at
              && (bs[j].at == bs[i + 1].at <==> j == i + 1)
  {
    NewHeaderApart(bs, i, b, j);
    NewHeaderApart(bs, i, b, i);
    HeadersApart(bs, j, i);
    if i + 1 < |bs| {
      HeadersApart(bs, j, i + 1);
      HeadersApart(bs, i, i + 1);
      NewHeaderApart(bs, i, b, i + 1);
    }
  }

  /** The header of the new block. */
  lemma NewHeaderOk(s: seq<byte>, base: nat, bs: seq<Block>, i: nat, n: u32, b: nat, rest: u32, next: u32, block: u32,
                    created: u32, t: seq<byte>, r: seq<Block>)
    requires |s| == HEAP_SIZE && Tiled(bs) && SplitValues(base, bs, i, n, b, rest, next, block, created)
    requires Fits(bs, i) && Fits(bs, i + 1) && b + HEADER <= HEAP_SIZE
    requires t == SplitImage(s, bs, i, n, b, rest, next, block, created) && r == Split(bs, i, n)
    ensures |r| == |bs| + 1 && HeaderOk(t, base, r, i + 1)
  {
    NewHeaderApart(bs, i, b, i);
    if i + 1 < |bs| {
      HeadersApart(bs, i, i + 1);
      NewHeaderApart(bs, i, b, i + 1);
    }
    SplitHeader(s, bs, i, n, b, rest, next, block, created, b);
    SplitExpected(base, bs, i, n, i);
  }

  lemma SplitHeaderOkAt(s: seq<byte>, base: nat, bs: seq<Block>, i: nat, n: u32, b: nat, rest: u32, next: u32, block: u32,
                        created: u32, t: seq<byte>, r: seq<Block>, k: nat)
    requires Represents(s, base, bs) && Tiled(bs) && SplitValues(base, bs, i, n, b, rest, next, block, created)
    requires k < |r| == |bs| + 1 && Fits(bs, i) && Fits(bs, i + 1) && b + HEADER <= HEAP_SIZE
    requires t == SplitImage(s, bs, i, n, b, rest, next, block, created) && r == Split(bs, i, n)
    ensures HeaderOk(t, base, r, k)
  {
    if k == i + 1 {
      NewHeaderOk(s, base, bs, i, n, b, rest, next, block, created, t, r);
    } else {
      var j := if k <= i then k else k - 1;
      assert HeaderOk(s, base, bs, j);
      SplitHeaderOk(s, base, bs, i, n, b, rest, next, block, created, t, r, j, k);
    }
  }

  lemma SplitRepresents(s: seq<byte>, base: nat, bs: seq<Block>, i: nat, n: u32, b: nat, rest: u32, next: u32, block: u32,
                        created: u32)
    requires Tiled(bs) && Represents(s, base, bs) && SplitValues(base, bs, i, n, b, rest, next, block, created)
    ensures b + HEADER <= HEAP_SIZE && Fits(bs, i) && Fits(bs, i + 1)
    ensures Represents(SplitImage(s, bs, i, n, b, rest, next, block, created), base, Split(bs, i, n))
    ensures AllKeptBut(s, SplitImage(s, bs, i, n, b, rest, next, block, created), bs, i)
  {
    assert HeaderOk(s, base, bs, i) && (i + 1 < |bs| ==> HeaderOk(s, base, bs, i + 1));
    NewHeaderApart(bs, i, b, i);
    var t, r := SplitImage(s, bs, i, n, b, rest, next, block, created), Split(bs, i, n);
    forall k | 0 <= k < |r| ensures HeaderOk(t, base, r, k) {
      SplitHeaderOkAt(s, base, bs, i, n, b, rest, next, block, created, t, r, k);
    }
    SplitKept(s, bs, i, n, b, rest, next, block, created);
  }

  ghost predicate AllKeptBut(s: seq<byte>, t: seq<byte>, bs: seq<Block>, i: nat) {
    forall j {:trigger Kept(s, t, bs[j])} :: 0 <= j < |bs| && j != i ==> Kept(s, t, bs[j])
  }

  lemma SplitKept(s: seq<byte>, bs: seq<Block>, i: nat, n: u32, b: nat, rest: u32, next: u32, block: u32, created: u32)
    requires Tiled(bs) && |s| == HEAP_SIZE && i < |bs| && bs[i].at + HEADER <= b && b + HEADER <= End(bs[i])
    requires b + HEADER <= HEAP_SIZE && Fits(bs, i) && Fits(bs, i + 1)
    ensures AllKeptBut(s, SplitImage(s, bs, i, n, b, rest, next, block, created), bs, i)
  {
    var t := SplitImage(s, bs, i, n, b, rest, next, block, created);
    forall j | 0 <= j < |bs| && j != i ensures Kept(s, t, bs[j]) {
      forall p | bs[j].at + HEADER <= p < End(bs[j]) && p < |s| ensures t[p] == s[p] {
        PayloadsDisjoint(bs, j, i, p);
        if i + 1 < |bs| && j != i + 1 {
          PayloadsDisjoint(bs, j, i + 1, p);
        }
        SplitByte(s, bs, i, n, b, rest, next, block, created, p);
      }
    }
  }

  lemma SplitByte(s: seq<byte>, bs: seq<Block>, i: nat, n: u32, b: nat, rest: u32, next: u32, block: u32, created: u32, p: nat)
    requires |s| == HEAP_SIZE && i < |bs| && b + HEADER <= HEAP_SIZE && Fits(bs, i) && Fits(bs, i + 1) && p < |s|
    requires !(b <= p < b + HEADER) && !(bs[i].at <= p < bs[i].at + HEADER)
    requires i + 1 < |bs| ==> !(bs[i + 1].at <= p < bs[i + 1].at + HEADER)
    ensures SplitImage(s, bs, i, n, b, rest, next, block, created)[p] == s[p]
  {
  }

  // Writing into a payload ---------------------------------------------------------------------------

  /** Whatever the owner of a block writes into its payload, the list survives, and so does
      every other payload. */
  lemma PayloadWrite(s: seq<byte>, t: seq<byte>, base: nat, bs: seq<Block>, i: nat)
    requires Tiled(bs) && Represents(s, base, bs) && i < |bs| && |t| == |s|
    requires forall p :: 0 <= p < |s| && !(bs[i].at + HEADER <= p < End(bs[i])) ==> t[p] == s[p]
    ensures Represents(t, base, bs) && AllKeptBut(s, t, bs, i)
  {
    forall j | 0 <= j < |bs| ensures HeaderOk(t, base, bs, j) {
      assert HeaderOk(s, base, bs, j);
      forall p | bs[j].at <= p < bs[j].at + HEADER ensures t[p] == s[p] {
        if bs[i].at + HEADER <= p < End(bs[i]) && i != j {
          PayloadsDisjoint(bs, i, j, p);
        }
      }
      SameHeader(s, t, bs[j].at);
    }
    forall j | 0 <= j < |bs| && j != i ensures Kept(s, t, bs[j]) {
      forall p | bs[j].at + HEADER <= p < End(bs[j]) && p < |s| ensures t[p] == s[p] {
        PayloadsDisjoint(bs, j, i, p);
      }
    }
  }
}
