/** Octet buffers: what a copy into a buffer leaves there, and the palCopyMemory copy itself. */
module Buffers {
  import opened LimTypes

  /** The buffer `d` after `o` is copied over it from offset `off`; the rest is left as it was. */
  function Splice<T>(d: seq<T>, off: nat, o: seq<T>): (r: seq<T>)
    requires off + |o| <= |d|
    ensures |r| == |d|
  {
    d[..off] + o + d[off + |o|..]
  }

  /** A copy changes exactly the octets it covers: they hold `o` and every other octet is kept. */
  lemma SpliceContents<T>(d: seq<T>, off: nat, o: seq<T>)
    requires off + |o| <= |d|
    ensures forall m :: 0 <= m < |o| ==> Splice(d, off, o)[off + m] == o[m]
    ensures forall m :: 0 <= m < |d| && !(off <= m < off + |o|) ==> Splice(d, off, o)[m] == d[m]
  {
  }

  /** Writing one more element just past a copied segment extends the segment by it. */
  lemma SpliceExtend<T>(d: seq<T>, off: nat, o: seq<T>, x: T)
    requires off + |o| < |d|
    ensures Splice(d, off, o)[off + |o| := x] == Splice(d, off, o + [x])
  {
  }

  /** palCopyMemory: copies the first `n` octets of `src` into `dst` from offset `dstOff`. */
  method CopyMemory(dst: array<byte>, dstOff: nat, src: seq<byte>, n: nat)
    requires n <= |src| && dstOff + n <= dst.Length
    modifies dst
    ensures dst[..] == Splice(old(dst[..]), dstOff, src[..n])
  {
    ghost var d0 := dst[..];
    var i := 0;
    while i < n
      invariant 0 <= i <= n
      invariant dst[..] == Splice(d0, dstOff, src[..i])
    {
      SpliceExtend(d0, dstOff, src[..i], src[i]);
      assert src[..i] + [src[i]] == src[..i + 1];
      dst[dstOff + i] := src[i];
      i := i + 1;
    }
  }
}
