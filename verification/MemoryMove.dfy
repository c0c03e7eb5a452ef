/** The kernel's memmove. */
module MemoryMove {

  /** A copy of `n` elements inside one array whose source and destination may overlap: the
      destination receives what the source held before, and nothing else changes. */
  function Moved<T>(s: seq<T>, dst: nat, src: nat, n: nat): (t: seq<T>)
    requires dst + n <= |s| && src + n <= |s|
    ensures |t| == |s|
  {
    s[..dst] + s[src..src + n] + s[dst + n..]
  }

  /** Element by element: inside the destination what lay at the same place of the source, elsewhere what was
      there. */
  lemma MovedMeans<T>(s: seq<T>, dst: nat, src: nat, n: nat, k: nat)
    requires dst + n <= |s| && src + n <= |s| && k < |s|
    ensures Moved(s, dst, src, n)[k] == if dst <= k < dst + n then s[src + (k - dst)] else s[k]
  {
  }

  /** memmove: forwards when the destination lies before the source, backwards otherwise. */
  method MemMove<T>(a: array<T>, dst: nat, src: nat, n: nat)
    requires dst + n <= a.Length && src + n <= a.Length
    modifies a
    ensures a[..] == Moved(old(a[..]), dst, src, n)
  {
    if dst == src || n == 0 {
      assert a[..] == Moved(old(a[..]), dst, src, n);
      return;
    }
    ghost var was := a[..];
    if dst < src {
      var i := 0;
      while i < n
        invariant 0 <= i <= n
        invariant forall k :: dst <= k < dst + i ==> a[k] == was[src + (k - dst)]
        invariant forall k :: 0 <= k < a.Length && !(dst <= k < dst + i) ==> a[k] == was[k]
      {
        a[dst + i] := a[src + i];
        i := i + 1;
      }
    } else {
      var i := n;
      while i > 0
        invariant 0 <= i <= n
        invariant forall k :: dst + i <= k < dst + n ==> a[k] == was[src + (k - dst)]
        invariant forall k :: 0 <= k < a.Length && !(dst + i <= k < dst + n) ==> a[k] == was[k]
      {
        a[dst + i - 1] := a[src + i - 1];
        i := i - 1;
      }
    }
    MovedAt(was, a[..], dst, src, n);
  }

  lemma MovedAt<T>(s: seq<T>, t: seq<T>, dst: nat, src: nat, n: nat)
    requires dst + n <= |s| == |t| && src + n <= |s|
    requires forall k :: dst <= k < dst + n ==> t[k] == s[src + (k - dst)]
    requires forall k :: 0 <= k < |t| && !(dst <= k < dst + n) ==> t[k] == s[k]
    ensures t == Moved(s, dst, src, n)
  {
  }
}
