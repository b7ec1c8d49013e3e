/**
 * The per-octet step of the CRC-32 used for the WEP integrity check value. The driver's
 * limCrcUpdate is defined outside the file this model covers; it is taken here to be the
 * standard bit-reflected CRC-32 step with generator polynomial 0xEDB88320 (the IEEE 802.3 FCS),
 * written bit by bit. The lemmas show the step is injective in each argument.
 */
module CrcStep {
  import opened LimTypes

  /** The reflected CRC-32 generator polynomial. */
  const CrcPolynomial: bv32 := 0xEDB8_8320

  /** One bit of the reflected CRC division. */
  function CrcShift(c: bv32): bv32 {
    if c & 1 == 1 then (c >> 1) ^ CrcPolynomial else c >> 1
  }

  /** Two, four and eight bits of the division; eight bits are one octet's worth. */
  function CrcShift2(c: bv32): bv32 {
    CrcShift(CrcShift(c))
  }

  function CrcShift4(c: bv32): bv32 {
    CrcShift2(CrcShift2(c))
  }

  function CrcShift8(c: bv32): bv32 {
    CrcShift4(CrcShift4(c))
  }

  /** limCrcUpdate: fold one octet into the CRC register. */
  function CrcUpdate(crc: bv32, b: byte): bv32 {
    CrcShift8(crc ^ (b as bv32))
  }

  /** One bit of the division loses no information: the dropped low bit is recovered from the top bit. */
  lemma CrcShiftInjective(x: bv32, y: bv32)
    ensures CrcShift(x) == CrcShift(y) ==> x == y
  {
  }

  lemma CrcShift2Injective(x: bv32, y: bv32)
    ensures CrcShift2(x) == CrcShift2(y) ==> x == y
  {
    CrcShiftInjective(CrcShift(x), CrcShift(y));
    CrcShiftInjective(x, y);
  }

  lemma CrcShift4Injective(x: bv32, y: bv32)
    ensures CrcShift4(x) == CrcShift4(y) ==> x == y
  {
    CrcShift2Injective(CrcShift2(x), CrcShift2(y));
    CrcShift2Injective(x, y);
  }

  lemma CrcShift8Injective(x: bv32, y: bv32)
    ensures CrcShift8(x) == CrcShift8(y) ==> x == y
  {
    CrcShift4Injective(CrcShift4(x), CrcShift4(y));
    CrcShift4Injective(x, y);
  }

  lemma WidenInjective(r: bv32, x: byte, y: byte)
    ensures r ^ (x as bv32) == r ^ (y as bv32) ==> x == y
  {
  }

  lemma XorCancel(r1: bv32, r2: bv32, z: bv32)
    ensures r1 ^ z == r2 ^ z ==> r1 == r2
  {
  }

  /** For a fixed register, different octets leave different registers. */
  lemma CrcUpdateInjectiveInOctet(r: bv32, x: byte, y: byte)
    requires x != y
    ensures CrcUpdate(r, x) != CrcUpdate(r, y)
  {
    CrcShift8Injective(r ^ (x as bv32), r ^ (y as bv32));
    WidenInjective(r, x, y);
  }

  /** For a fixed octet, different registers stay different. */
  lemma CrcUpdateInjectiveInRegister(r1: bv32, r2: bv32, z: byte)
    requires r1 != r2
    ensures CrcUpdate(r1, z) != CrcUpdate(r2, z)
  {
    CrcShift8Injective(r1 ^ (z as bv32), r2 ^ (z as bv32));
    XorCancel(r1, r2, z as bv32);
  }
}
