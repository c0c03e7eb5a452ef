module ByteConversion {
  /** A number below 256 survives its conversion to a byte. */
  lemma ByteRoundTrip(x: nat)
    requires x < 256
    ensures (x as bv8) as nat == x
  {
  }
}

/** Bytes, 32-bit words and the little-endian encoding that a memcpy of a struct produces on
    the i386 target. */
module Bytes {
  import opened ByteConversion

  type byte = bv8

  type u32 = x: int | 0 <= x < 0x1_0000_0000

  const NUL: byte := 0

  // 32-bit arithmetic is modulo this.
  const WORD_RANGE: nat := 0x1_0000_0000

  function Zeros(n: nat): (s: seq<byte>)
    ensures |s| == n
  {
    seq(n, _ => NUL)
  }

  /** The `n` low bytes of `v`, least significant first. */
  function EncodeBytes(v: nat, n: nat): (s: seq<byte>)
    ensures |s| == n
    decreases n
  {
    if n == 0 then [] else [(v % 256) as byte] + EncodeBytes(v / 256, n - 1)
  }

  function DecodeBytes(s: seq<byte>): nat {
    if s == [] then 0 else s[0] as nat + 256 * DecodeBytes(s[1..])
  }

  function Range(n: nat): nat {
    if n == 0 then 1 else 256 * Range(n - 1)
  }

  lemma {:induction false} BytesRoundTrip(v: nat, n: nat)
    requires v < Range(n)
    ensures DecodeBytes(EncodeBytes(v, n)) == v
    decreases n
  {
    if n == 0 {
    } else {
      ByteRoundTrip(v % 256);
      BytesRoundTrip(v / 256, n - 1);
    }
  }

  lemma {:induction false} DecodeBytesBound(s: seq<byte>)
    ensures DecodeBytes(s) < Range(|s|)
  {
    if s != [] {
      DecodeBytesBound(s[1..]);
    }
  }

  lemma RangeOfWord()
    ensures Range(4) == 0x1_0000_0000
  {
    assert Range(3) == 0x100_0000;
  }

  function EncodeU32(v: u32): (s: seq<byte>)
    ensures |s| == 4
  {
    EncodeBytes(v, 4)
  }

  function DecodeU32(s: seq<byte>): u32
    requires |s| == 4
  {
    DecodeBytesBound(s);
    RangeOfWord();
    DecodeBytes(s)
  }

  /** A word that is stored and loaded again is unchanged. */
  lemma U32RoundTrip(v: u32)
    ensures DecodeU32(EncodeU32(v)) == v
  {
    RangeOfWord();
    BytesRoundTrip(v, 4);
  }

  function EncodeWords(ws: seq<u32>): (s: seq<byte>)
    ensures |s| == 4 * |ws|
  {
    if ws == [] then [] else EncodeU32(ws[0]) + EncodeWords(ws[1..])
  }

  function DecodeWords(s: seq<byte>): (ws: seq<u32>)
    requires |s| % 4 == 0
    ensures 4 * |ws| == |s|
  {
    if s == [] then [] else [DecodeU32(s[..4])] + DecodeWords(s[4..])
  }

  /** Word `k` of an array takes the four bytes from 4k on. */
  lemma {:induction false} WordPlace(ws: seq<u32>, k: nat)
    requires k < |ws|
    ensures EncodeWords(ws)[4 * k..4 * k + 4] == EncodeU32(ws[k])
  {
    var s := EncodeWords(ws);
    if k == 0 {
      assert s[..4] == EncodeU32(ws[0]);
    } else {
      WordPlace(ws[1..], k - 1);
      assert s[4..] == EncodeWords(ws[1..]);
      assert s[4 * k..4 * k + 4] == s[4..][4 * (k - 1)..4 * (k - 1) + 4];
    }
  }

  /** The least significant byte of a word comes first. */
  lemma WordBytes(v: u32)
    ensures EncodeU32(v) == [(v % 256) as byte, (v / 256 % 256) as byte, (v / 65536 % 256) as byte,
                             (v / 16777216 % 256) as byte]
  {
    Quotients(v);
    var a, b, c := v / 256, v / 65536, v / 16777216;
    EncodeOne(v, 3);
    EncodeOne(a, 2);
    EncodeOne(b, 1);
    EncodeOne(c, 0);
  }

  lemma Quotients(v: nat)
    ensures v / 256 / 256 == v / 65536 && v / 65536 / 256 == v / 16777216
  {
  }

  lemma EncodeOne(v: nat, n: nat)
    ensures EncodeBytes(v, n + 1) == [(v % 256) as byte] + EncodeBytes(v / 256, n)
  {
  }

  /** Arrays of words survive a store and a load. */
  lemma {:induction false} WordsRoundTrip(ws: seq<u32>)
    ensures DecodeWords(EncodeWords(ws)) == ws
  {
    if ws == [] {
    } else {
      var s := EncodeWords(ws);
      assert s[..4] == EncodeU32(ws[0]) && s[4..] == EncodeWords(ws[1..]);
      U32RoundTrip(ws[0]);
      WordsRoundTrip(ws[1..]);
    }
  }
}
