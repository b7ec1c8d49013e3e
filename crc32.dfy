/** The CRC-32 integrity check value (ICV) of WEP, as computed by limComputeCrc32. */
module Crc32 {
  import opened LimTypes
  import opened Buffers
  import opened CrcStep

  /** SIR_MAC_WEP_ICV_LENGTH: an ICV is 4 octets. */
  const WepIcvLength: nat := 4

  /** SIR_MAC_WEP_IV_LENGTH: the IV field is 4 octets; limComputeCrc32 bounds its output loop by it. */
  const WepIvLength: nat := 4

  /** The register after folding every octet of `data`, first octet first, starting from `crc`. */
  function CrcFold(crc: bv32, data: seq<byte>): bv32
    decreases |data|
  {
    if |data| == 0 then crc else CrcUpdate(CrcFold(crc, data[..|data| - 1]), data[|data| - 1])
  }

  /** The CRC-32 of `data`: the register starts at all ones and is complemented at the end. */
  function Crc(data: seq<byte>): bv32 {
    !CrcFold(!0, data)
  }

  /** The 4 ICV octets of a CRC value, least significant octet first. */
  function IcvBytes(crc: bv32): (r: seq<byte>)
    ensures |r| == WepIcvLength
  {
    [LowOctet(crc), LowOctet(crc >> 8), LowOctet(crc >> 16), LowOctet(crc >> 24)]
  }

  /** The (tANI_U8) cast of a 32-bit value: its least significant octet. */
  function LowOctet(c: bv32): byte {
    (c & 0xFF) as byte
  }

  /** Reads 4 octets back as a little-endian 32-bit value: the inverse of IcvBytes. */
  function IcvValue(b: seq<byte>): bv32
    requires |b| == WepIcvLength
  {
    (b[0] as bv32) | ((b[1] as bv32) << 8) | ((b[2] as bv32) << 16) | ((b[3] as bv32) << 24)
  }

  /**
   * limComputeCrc32: computes the CRC-32 of the first `len` octets of `src` and writes it
   * as 4 octets, least significant first, at `dest[destOff..destOff + 4]`.
   */
  method ComputeCrc32(dest: array<byte>, destOff: nat, src: seq<byte>, len: nat)
    requires len < 256 && len <= |src|
    requires destOff + WepIcvLength <= dest.Length
    modifies dest
    ensures dest[..] == Splice(old(dest[..]), destOff, IcvBytes(Crc(src[..len])))
  {
    var crc := CrcOfPrefix(src, len);
    StoreIcv(dest, destOff, crc);
  }

  /**
   * The input loop of limComputeCrc32: the register starts at all ones, takes one octet at
   * a time and is complemented at the end.
   */
  method CrcOfPrefix(src: seq<byte>, len: nat) returns (crc: bv32)
    requires len <= |src|
    ensures crc == Crc(src[..len])
  {
    crc := 0;
    crc := !crc;
    var n := 0;
    while n < len
      invariant 0 <= n <= len
      invariant crc == CrcFold(!0, src[..n])
    {
      assert src[..n + 1][..n] == src[..n];
      crc := CrcUpdate(crc, src[n]);
      n := n + 1;
    }
    assert src[..n] == src[..len];
    crc := !crc;
  }

  /**
   * The output loop of limComputeCrc32: stores `crc` octet by octet, shifting it right by 8
   * each time. The driver counts the loop with the IV length, which equals the ICV length.
   */
  method StoreIcv(dest: array<byte>, destOff: nat, crc: bv32)
    requires destOff + WepIcvLength <= dest.Length
    modifies dest
    ensures dest[..] == Splice(old(dest[..]), destOff, IcvBytes(crc))
  {
    ghost var icv := IcvBytes(crc);
    var c := crc;
    var i := 0;
    while i < WepIvLength
      invariant 0 <= i <= WepIvLength
      invariant c == ShiftedOctets(crc, i)
      invariant forall m :: 0 <= m < i ==> dest[destOff + m] == icv[m]
      invariant forall m :: 0 <= m < dest.Length && !(destOff <= m < destOff + i) ==> dest[m] == old(dest[m])
    {
      ShiftedOctetIsIcvByte(crc, i);
      ShiftedOctetsStep(crc, i);
      dest[destOff + i] := LowOctet(c);
      c := c >> 8;
      i := i + 1;
    }
    assert dest[..] == Splice(old(dest[..]), destOff, icv);
  }

  /** The register of limComputeCrc32's output loop after `i` octets have been written. */
  function ShiftedOctets(c: bv32, i: nat): bv32 {
    if i == 0 then c else if i == 1 then c >> 8 else if i == 2 then c >> 16 else if i == 3 then c >> 24 else 0
  }

  lemma ShiftedOctetIsIcvByte(c: bv32, i: nat)
    requires i < WepIcvLength
    ensures LowOctet(ShiftedOctets(c, i)) == IcvBytes(c)[i]
  {
    if i == 0 {
    } else if i == 1 {
    } else if i == 2 {
    } else {
    }
  }

  lemma ShiftedOctetsStep(c: bv32, i: nat)
    requires i < WepIcvLength
    ensures ShiftedOctets(c, i) >> 8 == ShiftedOctets(c, i + 1)
  {
    if i == 0 {
    } else if i == 1 {
    } else if i == 2 {
    } else {
      assert (c >> 24) >> 8 == 0;
    }
  }

  // ---------------------------------------------------------------------------
  // Error detection: the ICV tells apart two messages that differ in one octet.
  // ---------------------------------------------------------------------------

  /** Folding a concatenation folds the parts in turn. */
  lemma {:induction false} CrcFoldAppend(c: bv32, a: seq<byte>, b: seq<byte>)
    ensures CrcFold(c, a + b) == CrcFold(CrcFold(c, a), b)
    decreases |b|
  {
    if |b| > 0 {
      var n := |b| - 1;
      assert (a + b)[..|a + b| - 1] == a + b[..n];
      CrcFoldAppend(c, a, b[..n]);
    } else {
      assert a + b == a;
    }
  }

  /** Registers that differ stay different when the same octets are folded into both. */
  lemma {:induction false} CrcFoldInjective(r1: bv32, r2: bv32, s: seq<byte>)
    requires r1 != r2
    ensures CrcFold(r1, s) != CrcFold(r2, s)
    decreases |s|
  {
    if |s| > 0 {
      var n := |s| - 1;
      CrcFoldInjective(r1, r2, s[..n]);
      CrcUpdateInjectiveInRegister(CrcFold(r1, s[..n]), CrcFold(r2, s[..n]), s[n]);
    }
  }

  /** Two messages of the same length that differ in exactly one octet have different CRCs. */
  lemma SingleOctetErrorDetected(a: seq<byte>, b: seq<byte>, p: nat)
    requires |a| == |b| && p < |a| && a[p] != b[p]
    requires forall k :: 0 <= k < |a| && k != p ==> a[k] == b[k]
    ensures Crc(a) != Crc(b)
  {
    var pre, suf := a[..p], a[p + 1..];
    assert a == pre + [a[p]] + suf;
    assert b == pre + [b[p]] + suf;
    var ones: bv32 := !0;
    var r := CrcFold(ones, pre);
    CrcFoldAppend(ones, pre + [a[p]], suf);
    CrcFoldAppend(ones, pre + [b[p]], suf);
    CrcFoldAppend(ones, pre, [a[p]]);
    CrcFoldAppend(ones, pre, [b[p]]);
    assert CrcFold(r, [a[p]]) == CrcUpdate(r, a[p]);
    assert CrcFold(r, [b[p]]) == CrcUpdate(r, b[p]);
    CrcUpdateInjectiveInOctet(r, a[p], b[p]);
    CrcFoldInjective(CrcUpdate(r, a[p]), CrcUpdate(r, b[p]), suf);
  }

  /** Reading the ICV octets back as a little-endian value gives the CRC again. */
  lemma IcvRoundTrip(crc: bv32)
    ensures IcvValue(IcvBytes(crc)) == crc
  {
  }

  /** IcvBytes is injective: different CRCs give different ICV octets. */
  lemma IcvBytesInjective(c1: bv32, c2: bv32)
    ensures IcvBytes(c1) == IcvBytes(c2) <==> c1 == c2
  {
    if IcvBytes(c1) == IcvBytes(c2) {
      IcvRoundTrip(c1);
      IcvRoundTrip(c2);
    }
  }
}
