/** Byte-buffer primitives the queue is built on: a plain byte copy into an
    array at an offset, and a fill that overwrites every element of an array
    (a zero-fill when the value is 0). */
module MemUtils {

  /** n copies of v. */
  function Repeat<T>(v: T, n: nat): seq<T>
  {
    seq(n, _ => v)
  }

  /** A run of n zero bytes. */
  function Zeros(n: nat): seq<bv8>
  {
    Repeat(0, n)
  }

  /** Writes src into dst[offset .. offset + |src|); every other byte of dst
      keeps its value. */
  method Copy(dst: array<bv8>, offset: nat, src: seq<bv8>)
    requires offset + |src| <= dst.Length
    modifies dst
    ensures forall k :: 0 <= k < offset ==> dst[k] == old(dst[k])
    ensures forall k :: 0 <= k < |src| ==> dst[offset + k] == src[k]
    ensures forall k :: offset + |src| <= k < dst.Length ==> dst[k] == old(dst[k])
  {
    var i := 0;
    while i < |src|
      invariant 0 <= i <= |src|
      invariant forall k :: 0 <= k < offset ==> dst[k] == old(dst[k])
      invariant forall k :: 0 <= k < i ==> dst[offset + k] == src[k]
      invariant forall k :: offset + i <= k < dst.Length ==> dst[k] == old(dst[k])
    {
      dst[offset + i] := src[i];
      i := i + 1;
    }
  }

  /** Overwrites every element of a with v. */
  method Fill<T>(a: array<T>, v: T)
    modifies a
    ensures forall k :: 0 <= k < a.Length ==> a[k] == v
  {
    var i := 0;
    while i < a.Length
      invariant 0 <= i <= a.Length
      invariant forall k :: 0 <= k < i ==> a[k] == v
    {
      a[i] := v;
      i := i + 1;
    }
  }
}
