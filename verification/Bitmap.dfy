/** The byte-packed allocation bitmaps: bit `i` is bit `i % 8` of byte `i / 8`. */
module Bitmap {
  import opened Bytes

  // The shift by a variable amount, one literal shift per amount.
  function ShiftRight(b: byte, k: nat): byte
    requires k < 8
  {
    if k == 0 then b else if k == 1 then b >> 1 else if k == 2 then b >> 2 else if k == 3 then b >> 3
    else if k == 4 then b >> 4 else if k == 5 then b >> 5 else if k == 6 then b >> 6 else b >> 7
  }

  function Mask(k: nat): byte
    requires k < 8
  {
    if k == 0 then 0x01 else if k == 1 then 0x02 else if k == 2 then 0x04 else if k == 3 then 0x08
    else if k == 4 then 0x10 else if k == 5 then 0x20 else if k == 6 then 0x40 else 0x80
  }

  predicate TestBit(b: byte, k: nat)
    requires k < 8
  {
    ShiftRight(b, k) & 1 == 1
  }

  function PutBit(b: byte, k: nat, value: bool): byte
    requires k < 8
  {
    if value then b | Mask(k) else b & !Mask(k)
  }

  lemma PutBitTest(b: byte, k: nat, value: bool, j: nat)
    requires k < 8 && j < 8
    ensures TestBit(PutBit(b, k, value), j) == if j == k then value else TestBit(b, j)
  {
    if k == 0 { PutBitTestAt(b, 0, value, j); }
    else if k == 1 { PutBitTestAt(b, 1, value, j); }
    else if k == 2 { PutBitTestAt(b, 2, value, j); }
    else if k == 3 { PutBitTestAt(b, 3, value, j); }
    else if k == 4 { PutBitTestAt(b, 4, value, j); }
    else if k == 5 { PutBitTestAt(b, 5, value, j); }
    else if k == 6 { PutBitTestAt(b, 6, value, j); }
    else { PutBitTestAt(b, 7, value, j); }
  }

  lemma PutBitTestAt(b: byte, k: nat, value: bool, j: nat)
    requires k < 8 && j < 8
    ensures TestBit(PutBit(b, k, value), j) == if j == k then value else TestBit(b, j)
  {
    if j == 0 {} else if j == 1 {} else if j == 2 {} else if j == 3 {}
    else if j == 4 {} else if j == 5 {} else if j == 6 {} else { assert j == 7; }
  }

  /** bitmap_test */
  predicate Bit(bitmap: seq<byte>, i: nat)
    requires i < 8 * |bitmap|
  {
    TestBit(bitmap[i / 8], i % 8)
  }

  /** The bits of a byte, by their weights. */
  lemma BitWeights(b: byte)
    ensures TestBit(b, 0) <==> b & 0x01 != 0
    ensures TestBit(b, 1) <==> b & 0x02 != 0
    ensures TestBit(b, 2) <==> b & 0x04 != 0
    ensures TestBit(b, 3) <==> b & 0x08 != 0
    ensures TestBit(b, 4) <==> b & 0x10 != 0
    ensures TestBit(b, 5) <==> b & 0x20 != 0
    ensures TestBit(b, 6) <==> b & 0x40 != 0
    ensures TestBit(b, 7) <==> b & 0x80 != 0
  {
  }

  /** Bit 8q + r of a bitmap is bit r of byte q. */
  lemma BitPlace(bitmap: seq<byte>, q: nat, r: nat)
    requires q < |bitmap| && r < 8
    ensures Bit(bitmap, 8 * q + r) <==> TestBit(bitmap[q], r)
  {
    assert (8 * q + r) / 8 == q && (8 * q + r) % 8 == r;
  }

  /** bitmap_set */
  function Put(bitmap: seq<byte>, i: nat, value: bool): (r: seq<byte>)
    requires i < 8 * |bitmap|
    ensures |r| == |bitmap|
  {
    bitmap[i / 8 := PutBit(bitmap[i / 8], i % 8, value)]
  }

  /** Setting one bit of the packed bytes changes that bit and no other. */
  lemma PutBitOnly(bitmap: seq<byte>, i: nat, value: bool, j: nat)
    requires i < 8 * |bitmap| && j < 8 * |bitmap|
    ensures Bit(Put(bitmap, i, value), j) == if i == j then value else Bit(bitmap, j)
  {
    PutBitTest(bitmap[i / 8], i % 8, value, j % 8);
  }

  lemma ZeroBitmap(n: nat, i: nat)
    requires i < 8 * n
    ensures !Bit(Zeros(n), i)
  {
    var k := i % 8;
    if k == 0 {} else if k == 1 {} else if k == 2 {} else if k == 3 {}
    else if k == 4 {} else if k == 5 {} else if k == 6 {} else { assert k == 7; }
  }

  lemma ByteExtensional(a: byte, b: byte)
    requires forall k :: 0 <= k < 8 ==> TestBit(a, k) == TestBit(b, k)
    ensures a == b
  {
    assert TestBit(a, 0) == TestBit(b, 0) && TestBit(a, 1) == TestBit(b, 1);
    assert TestBit(a, 2) == TestBit(b, 2) && TestBit(a, 3) == TestBit(b, 3);
    assert TestBit(a, 4) == TestBit(b, 4) && TestBit(a, 5) == TestBit(b, 5);
    assert TestBit(a, 6) == TestBit(b, 6) && TestBit(a, 7) == TestBit(b, 7);
  }

  /** Two bitmaps of one length with the same bits are the same bytes. */
  lemma Extensional(a: seq<byte>, b: seq<byte>)
    requires |a| == |b|
    requires forall i :: 0 <= i < 8 * |a| ==> Bit(a, i) == Bit(b, i)
    ensures a == b
  {
    forall n | 0 <= n < |a| ensures a[n] == b[n] {
      forall k | 0 <= k < 8 ensures TestBit(a[n], k) == TestBit(b[n], k) {
        assert (8 * n + k) / 8 == n && (8 * n + k) % 8 == k;
        assert Bit(a, 8 * n + k) == Bit(b, 8 * n + k);
      }
      ByteExtensional(a[n], b[n]);
    }
  }
}
