/**
 * WEP encapsulation of the shared-key authentication frame 3 (IEEE 802.11-2007, clause 8.2.1):
 * limEncryptAuthFrame and limDecryptAuthFrame. An encrypted body is a 3-octet IV, a key-ID
 * octet, then RC4 seeded with IV followed by the key, run over the plaintext body followed
 * by its CRC-32 ICV.
 */
module Wep {
  import opened LimTypes
  import opened Buffers
  import opened Crc32
  import opened Rc4

  /** LIM_SEED_LENGTH: the seed buffer holds the IV (3 octets) and at most 13 key octets. */
  const LimSeedLength: nat := 16

  /** Octets of the IV proper; the fourth octet of the IV field carries the key ID. */
  const IvOctets: nat := 3

  /** The longest key the seed buffer can take after the IV. */
  const MaxKeyLength: nat := 13

  /** sizeof(tSirMacTimeStamp): halGetTxTSFtimer writes 8 octets of TSF into the seed buffer. */
  const TimeStampLength: nat := 8

  /** sizeof(tSirMacAuthFrameBody): the plaintext authentication body covered by the ICV. */
  const AuthFrameBodyLength: nat := 136

  /** LIM_ENCR_AUTH_BODY_LEN: IV field, encrypted body and encrypted ICV. */
  const EncrAuthBodyLength: nat := 144

  /** The octets limRC4 is asked to produce on encryption: everything after the IV field. */
  const CipherLength: nat := 140

  /** Result of limDecryptAuthFrame: eSIR_SUCCESS or LIM_DECRYPT_ICV_FAIL. */
  datatype DecryptStatus = Success | IcvFail

  /** The fourth octet of the IV field: the key ID in its two most significant bits. */
  function KeyIdOctet(keyId: byte): (r: byte)
    ensures r >> 6 == keyId & 3 && r & 0x3F == 0
  {
    keyId << 6
  }

  /** The RC4 seed of a frame: the IV followed by the key. */
  function WepSeed(iv: seq<byte>, key: seq<byte>): (s: seq<byte>)
    ensures |s| == |iv| + |key|
  {
    iv + key
  }

  /** The plaintext followed by its ICV: what RC4 encrypts. */
  function WithIcv(body: seq<byte>): (r: seq<byte>)
    requires |body| < 256
    ensures |r| == |body| + WepIcvLength
  {
    body + IcvBytes(Crc(body))
  }

  /** The encrypted authentication body limEncryptAuthFrame leaves in pEncrBody. */
  function EncryptedAuthBody(iv: seq<byte>, keyId: byte, key: seq<byte>, body: seq<byte>): (r: seq<byte>)
    requires |iv| == IvOctets && |key| <= MaxKeyLength && |body| == AuthFrameBodyLength
    ensures |r| == EncrAuthBodyLength
  {
    iv + [KeyIdOctet(keyId)] + Rc4Output(WepSeed(iv, key), |key| + IvOctets, Some(WithIcv(body)), CipherLength)
  }

  /**
   * What limDecryptAuthFrame leaves in the plaintext buffer `p`: the first frameLen mod 256
   * octets become the RC4 output over the octets after the IV field, with the received IV
   * followed by the key as seed; the rest of the buffer is left as it was.
   */
  function DecryptedBuffer(p: seq<byte>, enc: seq<byte>, key: seq<byte>, frameLen: nat): (r: seq<byte>)
    requires |key| <= MaxKeyLength
    requires frameLen % 256 <= |p| && WepIvLength + frameLen % 256 <= |enc|
    ensures |r| == |p|
  {
    Splice(p, 0, Rc4Output(WepSeed(enc[..IvOctets], key), |key| + IvOctets, Some(enc[WepIvLength..]), frameLen % 256))
  }

  /**
   * The ICV check of limDecryptAuthFrame: the 4 octets at frameLen - 4 must equal the ICV of
   * the first frameLen - 4 octets, that count truncated to 8 bits.
   */
  function IcvCheck(p: seq<byte>, frameLen: nat): DecryptStatus
    requires WepIcvLength <= frameLen <= |p|
  {
    if p[frameLen - WepIcvLength..frameLen] == IcvBytes(Crc(p[..(frameLen - WepIcvLength) % 256])) then Success
    else IcvFail
  }

  /**
   * The seed buffer of both routines: `ivLength` octets of `ivSrc` copied to the front (the
   * TSF timer on encryption, the received IV on decryption), then keyLength key octets from
   * offset 3. Octets the two copies do not reach are never read by limRC4.
   */
  method BuildSeed(ivSrc: seq<byte>, ivLength: nat, key: seq<byte>, keyLength: nat) returns (seed: array<byte>)
    requires IvOctets <= ivLength <= LimSeedLength && ivLength <= |ivSrc|
    requires keyLength <= MaxKeyLength && keyLength <= |key|
    ensures fresh(seed) && seed.Length == LimSeedLength
    ensures seed[..keyLength + IvOctets] == WepSeed(ivSrc[..IvOctets], key[..keyLength])
  {
    seed := new byte[LimSeedLength];
    CopyMemory(seed, 0, ivSrc, ivLength);
    ghost var s1 := seed[..];
    CopyMemory(seed, IvOctets, key, keyLength);
    SeedLayout(s1, ivSrc, ivLength, key, keyLength);
  }

  lemma SeedLayout(s1: seq<byte>, ivSrc: seq<byte>, ivLength: nat, key: seq<byte>, keyLength: nat)
    requires IvOctets <= ivLength <= |s1| && ivLength <= |ivSrc| && IvOctets + keyLength <= |s1| && keyLength <= |key|
    requires s1[..ivLength] == ivSrc[..ivLength]
    ensures Splice(s1, IvOctets, key[..keyLength])[..keyLength + IvOctets] == ivSrc[..IvOctets] + key[..keyLength]
  {
    assert s1[..IvOctets] == ivSrc[..ivLength][..IvOctets];
  }

  /**
   * limEncryptAuthFrame: appends the ICV of the 136-octet body to the plaintext buffer, then
   * writes the IV (the low 3 TSF octets), the key-ID octet and the RC4 output over body and
   * ICV into the 144-octet encrypted body. The TSF timer value is a parameter.
   */
  method EncryptAuthFrame(keyId: byte, key: seq<byte>, plain: array<byte>, encBody: array<byte>,
                          keyLength: nat, tsf: seq<byte>)
    requires keyLength <= MaxKeyLength && keyLength <= |key|
    requires |tsf| == TimeStampLength
    requires AuthFrameBodyLength + WepIcvLength <= plain.Length && EncrAuthBodyLength <= encBody.Length
    requires plain != encBody
    modifies plain, encBody
    ensures plain[..] == Splice(old(plain[..]), 0, WithIcv(old(plain[..AuthFrameBodyLength])))
    ensures encBody[..] == Splice(old(encBody[..]), 0,
                                  EncryptedAuthBody(tsf[..IvOctets], keyId, key[..keyLength], old(plain[..AuthFrameBodyLength])))
  {
    ghost var body, e0 := plain[..AuthFrameBodyLength], encBody[..];
    var seedLength := keyLength + IvOctets;
    var seed := BuildSeed(tsf, TimeStampLength, key, keyLength);
    AppendIcv(plain);
    EncipherBody(encBody, plain[..], seed[..], seedLength, keyId);
    EncryptedBodyWritten(e0, seed[..], seedLength, tsf[..IvOctets], keyId, key[..keyLength], plain[..], body);
  }

  /** The RC4 call and the four IV-field assignments of limEncryptAuthFrame. */
  method EncipherBody(encBody: array<byte>, text: seq<byte>, seed: seq<byte>, seedLength: nat, keyId: byte)
    requires 0 < seedLength <= |seed| && IvOctets <= |seed|
    requires CipherLength <= |text| && EncrAuthBodyLength <= encBody.Length
    modifies encBody
    ensures encBody[..] == Splice(Splice(old(encBody[..]), WepIvLength, Rc4Output(seed, seedLength, Some(text), CipherLength)), 0,
                                  [seed[0], seed[1], seed[2], KeyIdOctet(keyId)])
  {
    Rc4.Rc4(encBody, WepIvLength, Some(text), seed, seedLength, CipherLength);
    WriteIvField(encBody, seed[0], seed[1], seed[2], KeyIdOctet(keyId));
  }

  /** Together, the RC4 call and the IV-field assignments of limEncryptAuthFrame write EncryptedAuthBody. */
  lemma EncryptedBodyWritten(e0: seq<byte>, seed: seq<byte>, seedLength: nat, iv: seq<byte>, keyId: byte, key: seq<byte>,
                             text: seq<byte>, body: seq<byte>)
    requires EncrAuthBodyLength <= |e0|
    requires |iv| == IvOctets && |key| <= MaxKeyLength && seedLength == |key| + IvOctets <= |seed|
    requires seed[..seedLength] == WepSeed(iv, key)
    requires |body| == AuthFrameBodyLength && CipherLength <= |text| && text[..CipherLength] == WithIcv(body)
    ensures Splice(Splice(e0, WepIvLength, Rc4Output(seed, seedLength, Some(text), CipherLength)), 0,
                   [seed[0], seed[1], seed[2], KeyIdOctet(keyId)])
         == Splice(e0, 0, EncryptedAuthBody(iv, keyId, key, body))
  {
    SameCipherText(seed, iv, key, text, body);
    var header := [seed[0], seed[1], seed[2], KeyIdOctet(keyId)];
    assert header == iv + [KeyIdOctet(keyId)] by {
      assert seed[..IvOctets] == iv;
    }
    SpliceAdjacent(e0, header, Rc4Output(WepSeed(iv, key), seedLength, Some(WithIcv(body)), CipherLength));
  }

  /** The ICV step of limEncryptAuthFrame: the CRC of the body into `icv`, then copied behind the body. */
  method AppendIcv(plain: array<byte>)
    requires AuthFrameBodyLength + WepIcvLength <= plain.Length
    modifies plain
    ensures plain[..] == Splice(old(plain[..]), 0, WithIcv(old(plain[..AuthFrameBodyLength])))
  {
    var icv := new byte[WepIcvLength];
    ComputeCrc32(icv, 0, plain[..], AuthFrameBodyLength);
    CopyMemory(plain, AuthFrameBodyLength, icv[..], WepIcvLength);
    assert icv[..] == IcvBytes(Crc(old(plain[..AuthFrameBodyLength])));
    SpliceBehind(old(plain[..]), AuthFrameBodyLength, icv[..]);
  }

  /** The last four assignments of limEncryptAuthFrame: IV octets and key-ID octet at the front. */
  method WriteIvField(encBody: array<byte>, iv0: byte, iv1: byte, iv2: byte, keyIdOctet: byte)
    requires WepIvLength <= encBody.Length
    modifies encBody
    ensures encBody[..] == Splice(old(encBody[..]), 0, [iv0, iv1, iv2, keyIdOctet])
  {
    encBody[0] := iv0;
    encBody[1] := iv1;
    encBody[2] := iv2;
    encBody[3] := keyIdOctet;
  }

  /** Copying `o` right behind an unchanged prefix is the same as copying prefix and `o` from 0. */
  lemma SpliceBehind(d: seq<byte>, off: nat, o: seq<byte>)
    requires off + |o| <= |d|
    ensures Splice(d, off, o) == Splice(d, 0, d[..off] + o)
  {
  }

  /** Two adjacent copies combine into one. */
  lemma SpliceAdjacent(d: seq<byte>, a: seq<byte>, b: seq<byte>)
    requires |a| + |b| <= |d|
    ensures Splice(Splice(d, |a|, b), 0, a) == Splice(d, 0, a + b)
  {
  }

  /** The RC4 call of limEncryptAuthFrame computes the cipher text of the encrypted body. */
  lemma SameCipherText(seed: seq<byte>, iv: seq<byte>, key: seq<byte>, text: seq<byte>, body: seq<byte>)
    requires |iv| == IvOctets && |key| <= MaxKeyLength && |key| + IvOctets <= |seed|
    requires seed[..|key| + IvOctets] == WepSeed(iv, key)
    requires |body| == AuthFrameBodyLength && CipherLength <= |text| && text[..CipherLength] == WithIcv(body)
    ensures Rc4Output(seed, |key| + IvOctets, Some(text), CipherLength)
         == Rc4Output(WepSeed(iv, key), |key| + IvOctets, Some(WithIcv(body)), CipherLength)
  {
    Rc4SeedPrefix(seed, |key| + IvOctets, Some(text), CipherLength);
    XorStreamSourcePrefix(Keystream(WepSeed(iv, key), |key| + IvOctets, CipherLength), text);
  }

  /**
   * limDecryptAuthFrame: builds the seed from the received IV and the key, decrypts into
   * `plain`, then compares the ICV of the decrypted body with the decrypted trailer.
   */
  method DecryptAuthFrame(key: seq<byte>, encBody: array<byte>, plain: array<byte>, keyLength: nat, frameLen: nat)
    returns (status: DecryptStatus)
    requires keyLength <= MaxKeyLength && keyLength <= |key|
    requires WepIcvLength <= frameLen < 0x1_0000 && frameLen <= plain.Length
    requires WepIvLength + frameLen % 256 <= encBody.Length
    requires plain != encBody
    modifies plain
    ensures plain[..] == DecryptedBuffer(old(plain[..]), encBody[..], key[..keyLength], frameLen)
    ensures status == IcvCheck(plain[..], frameLen)
  {
    var seedLength := keyLength + IvOctets;
    var seed := BuildSeed(encBody[..], IvOctets, key, keyLength);
    ghost var p0 := plain[..];
    Rc4.Rc4(plain, 0, Some(encBody[WepIvLength..]), seed[..], seedLength, frameLen);
    DecryptedBodyWritten(p0, encBody[..], seed[..], key[..keyLength], frameLen);
    var icv := new byte[WepIcvLength];
    ComputeCrc32(icv, 0, plain[..], (frameLen - WepIcvLength) % 256);
    status := CompareIcv(icv, plain, frameLen);
  }

  /** The RC4 call of limDecryptAuthFrame leaves DecryptedBuffer in the plaintext buffer. */
  lemma DecryptedBodyWritten(p0: seq<byte>, enc: seq<byte>, seed: seq<byte>, key: seq<byte>, frameLen: nat)
    requires |key| <= MaxKeyLength && |key| + IvOctets <= |seed|
    requires frameLen % 256 <= |p0| && WepIvLength + frameLen % 256 <= |enc|
    requires seed[..|key| + IvOctets] == WepSeed(enc[..IvOctets], key)
    ensures Splice(p0, 0, Rc4Output(seed, |key| + IvOctets, Some(enc[WepIvLength..]), frameLen % 256))
         == DecryptedBuffer(p0, enc, key, frameLen)
  {
    Rc4SeedPrefix(seed, |key| + IvOctets, Some(enc[WepIvLength..]), frameLen % 256);
  }

  /** The comparison loop of limDecryptAuthFrame: the first mismatching octet fails the frame. */
  method CompareIcv(icv: array<byte>, plain: array<byte>, frameLen: nat) returns (status: DecryptStatus)
    requires icv.Length == WepIcvLength && WepIcvLength <= frameLen <= plain.Length
    requires icv[..] == IcvBytes(Crc(plain[..(frameLen - WepIcvLength) % 256]))
    ensures status == IcvCheck(plain[..], frameLen)
  {
    var i := 0;
    while i < WepIcvLength
      invariant 0 <= i <= WepIcvLength
      invariant forall m :: 0 <= m < i ==> icv[m] == plain[frameLen - WepIcvLength + m]
    {
      if icv[i] != plain[frameLen - WepIcvLength + i] {
        assert plain[..][frameLen - WepIcvLength..frameLen][i] != icv[..][i];
        return IcvFail;
      }
      i := i + 1;
    }
    assert plain[..][frameLen - WepIcvLength..frameLen] == icv[..];
    return Success;
  }

  // ---------------------------------------------------------------------------
  // Properties of the encapsulation
  // ---------------------------------------------------------------------------

  /** The layout of an encrypted body: IV, key-ID octet, cipher text. */
  lemma EncryptedLayout(iv: seq<byte>, keyId: byte, key: seq<byte>, body: seq<byte>)
    requires |iv| == IvOctets && |key| <= MaxKeyLength && |body| == AuthFrameBodyLength
    ensures EncryptedAuthBody(iv, keyId, key, body)[..IvOctets] == iv
    ensures EncryptedAuthBody(iv, keyId, key, body)[IvOctets] >> 6 == keyId & 3
    ensures EncryptedAuthBody(iv, keyId, key, body)[WepIvLength..]
         == Rc4Output(WepSeed(iv, key), |key| + IvOctets, Some(WithIcv(body)), CipherLength)
  {
    var r := EncryptedAuthBody(iv, keyId, key, body);
    assert r == (iv + [KeyIdOctet(keyId)]) + Rc4Output(WepSeed(iv, key), |key| + IvOctets, Some(WithIcv(body)), CipherLength);
  }

  /** Only the first frameLen mod 256 octets of a decrypted buffer are RC4 output. */
  lemma DecryptedFront(p: seq<byte>, enc: seq<byte>, key: seq<byte>, frameLen: nat)
    requires |key| <= MaxKeyLength
    requires frameLen % 256 <= |p| && WepIvLength + frameLen % 256 <= |enc|
    ensures DecryptedBuffer(p, enc, key, frameLen)[..frameLen % 256]
         == Rc4Output(WepSeed(enc[..IvOctets], key), |key| + IvOctets, Some(enc[WepIvLength..]), frameLen % 256)
  {
    SplicePrefix(p, Rc4Output(WepSeed(enc[..IvOctets], key), |key| + IvOctets, Some(enc[WepIvLength..]), frameLen % 256));
  }

  lemma SplicePrefix(d: seq<byte>, o: seq<byte>)
    requires |o| <= |d|
    ensures Splice(d, 0, o)[..|o|] == o
  {
  }

  /** A buffer that starts with a body and its ICV passes the ICV check over 140 octets. */
  lemma IcvCheckPasses(r: seq<byte>, body: seq<byte>)
    requires |body| == AuthFrameBodyLength && CipherLength <= |r| && r[..CipherLength] == WithIcv(body)
    ensures IcvCheck(r, CipherLength) == Success
  {
    assert r[..AuthFrameBodyLength] == body;
    assert r[AuthFrameBodyLength..CipherLength] == IcvBytes(Crc(body));
  }

  /**
   * A buffer that differs from a body and its ICV in exactly one of the 140 octets fails the
   * ICV check: a change inside the body changes its CRC, a change inside the ICV changes the trailer.
   */
  lemma IcvCheckFails(r: seq<byte>, body: seq<byte>, q: nat)
    requires |body| == AuthFrameBodyLength && CipherLength <= |r| && q < CipherLength
    requires r[q] != WithIcv(body)[q]
    requires forall m :: 0 <= m < CipherLength && m != q ==> r[m] == WithIcv(body)[m]
    ensures IcvCheck(r, CipherLength) == IcvFail
  {
    if q < AuthFrameBodyLength {
      BodyOctetChanged(r, body, q);
    } else {
      IcvOctetChanged(r, body, q);
    }
  }

  /** A change inside the body: the trailer is the old ICV, but the body's CRC is new. */
  lemma BodyOctetChanged(r: seq<byte>, body: seq<byte>, q: nat)
    requires |body| == AuthFrameBodyLength && CipherLength <= |r| && q < AuthFrameBodyLength
    requires r[q] != body[q]
    requires forall m :: 0 <= m < CipherLength && m != q ==> r[m] == WithIcv(body)[m]
    ensures IcvCheck(r, CipherLength) == IcvFail
  {
    var w := WithIcv(body);
    WithIcvParts(body);
    OneOctetApart(r, w, AuthFrameBodyLength, q);
    SingleOctetErrorDetected(body, r[..AuthFrameBodyLength], q);
    IcvBytesInjective(Crc(body), Crc(r[..AuthFrameBodyLength]));
  }

  /** A body followed by its ICV splits back into the two. */
  lemma WithIcvParts(body: seq<byte>)
    requires |body| < 256
    ensures WithIcv(body)[..|body|] == body && WithIcv(body)[|body|..] == IcvBytes(Crc(body))
  {
  }

  /**
   * Two sequences that differ at most at position `q < n`: their first `n` elements differ
   * at most at `q`, and the elements from `n` on agree.
   */
  lemma OneOctetApart(r: seq<byte>, w: seq<byte>, n: nat, q: nat)
    requires q < n <= |w| <= |r|
    requires forall m :: 0 <= m < |w| && m != q ==> r[m] == w[m]
    ensures forall k :: 0 <= k < n && k != q ==> w[..n][k] == r[..n][k]
    ensures r[n..|w|] == w[n..]
  {
  }

  /** A change inside the ICV: the body's CRC is unchanged, but the trailer is not. */
  lemma IcvOctetChanged(r: seq<byte>, body: seq<byte>, q: nat)
    requires |body| == AuthFrameBodyLength && CipherLength <= |r| && AuthFrameBodyLength <= q < CipherLength
    requires r[q] != WithIcv(body)[q]
    requires forall m :: 0 <= m < CipherLength && m != q ==> r[m] == WithIcv(body)[m]
    ensures IcvCheck(r, CipherLength) == IcvFail
  {
    var icv := IcvBytes(Crc(body));
    assert WithIcv(body) == body + icv;
    TrailerChanged(r, body, icv, q);
    assert r[..(CipherLength - WepIcvLength) % 256] == body;
    IcvCheckBadTrailer(r, CipherLength);
  }

  /** The ICV check fails exactly when the trailer is not the ICV of the octets before it. */
  lemma IcvCheckBadTrailer(r: seq<byte>, frameLen: nat)
    requires WepIcvLength <= frameLen <= |r|
    requires r[frameLen - WepIcvLength..frameLen] != IcvBytes(Crc(r[..(frameLen - WepIcvLength) % 256]))
    ensures IcvCheck(r, frameLen) == IcvFail
  {
  }

  /**
   * A buffer that differs from `body + icv` only at a position inside `icv` starts with
   * `body` and has a different trailer.
   */
  lemma TrailerChanged(r: seq<byte>, body: seq<byte>, icv: seq<byte>, q: nat)
    requires |body| <= q < |body| + |icv| <= |r|
    requires r[q] != (body + icv)[q]
    requires forall m :: 0 <= m < |body| + |icv| && m != q ==> r[m] == (body + icv)[m]
    ensures r[..|body|] == body && r[|body|..|body| + |icv|] != icv
  {
    assert r[..|body|] == body by {
      forall k | 0 <= k < |body|
        ensures r[k] == body[k]
      {
        assert r[k] == (body + icv)[k];
      }
    }
    assert r[|body|..|body| + |icv|][q - |body|] != icv[q - |body|];
  }

  /**
   * Decrypting an encrypted body with the same key, over the 140 octets after the IV field,
   * restores body and ICV and passes the ICV check.
   */
  lemma DecryptEncryptRoundTrip(iv: seq<byte>, keyId: byte, key: seq<byte>, body: seq<byte>, p: seq<byte>)
    requires |iv| == IvOctets && |key| <= MaxKeyLength && |body| == AuthFrameBodyLength
    requires CipherLength <= |p|
    ensures DecryptedBuffer(p, EncryptedAuthBody(iv, keyId, key, body), key, CipherLength)[..CipherLength] == WithIcv(body)
    ensures IcvCheck(DecryptedBuffer(p, EncryptedAuthBody(iv, keyId, key, body), key, CipherLength), CipherLength) == Success
  {
    var enc := EncryptedAuthBody(iv, keyId, key, body);
    EncryptedLayout(iv, keyId, key, body);
    DecryptedFront(p, enc, key, CipherLength);
    Rc4Involution(WepSeed(iv, key), |key| + IvOctets, WithIcv(body), CipherLength);
    IcvCheckPasses(DecryptedBuffer(p, enc, key, CipherLength), body);
  }

  /**
   * The round trip on the buffers themselves: whatever else the encrypted-body buffer holds
   * beyond the 144 octets EncryptAuthFrame writes, DecryptAuthFrame over 140 octets with the
   * same key restores body and ICV in the plaintext buffer and reports success.
   */
  lemma EncryptedBufferDecrypts(e0: seq<byte>, iv: seq<byte>, keyId: byte, key: seq<byte>, body: seq<byte>, p: seq<byte>)
    requires |iv| == IvOctets && |key| <= MaxKeyLength && |body| == AuthFrameBodyLength
    requires EncrAuthBodyLength <= |e0| && CipherLength <= |p|
    ensures DecryptedBuffer(p, Splice(e0, 0, EncryptedAuthBody(iv, keyId, key, body)), key, CipherLength)[..CipherLength]
         == WithIcv(body)
    ensures IcvCheck(DecryptedBuffer(p, Splice(e0, 0, EncryptedAuthBody(iv, keyId, key, body)), key, CipherLength),
                     CipherLength) == Success
  {
    var e := EncryptedAuthBody(iv, keyId, key, body);
    SplicePrefix(e0, e);
    SameDecryption(p, Splice(e0, 0, e), e, key);
    DecryptEncryptRoundTrip(iv, keyId, key, body, p);
  }

  /** Decryption over 140 octets reads only the first 144 octets of the encrypted body. */
  lemma SameDecryption(p: seq<byte>, enc: seq<byte>, e: seq<byte>, key: seq<byte>)
    requires |key| <= MaxKeyLength && CipherLength <= |p|
    requires |e| == EncrAuthBodyLength <= |enc| && enc[..EncrAuthBodyLength] == e
    ensures DecryptedBuffer(p, enc, key, CipherLength) == DecryptedBuffer(p, e, key, CipherLength)
  {
    assert enc[..IvOctets] == e[..IvOctets];
    assert enc[WepIvLength..][..CipherLength] == e[WepIvLength..];
    var seed := WepSeed(e[..IvOctets], key);
    XorStreamSourcePrefix(Keystream(seed, |key| + IvOctets, CipherLength), enc[WepIvLength..]);
  }

  /** Changing any one octet after the IV field of an encrypted body makes the ICV check fail. */
  lemma TamperDetected(iv: seq<byte>, keyId: byte, key: seq<byte>, body: seq<byte>, p: seq<byte>,
                       forged: seq<byte>, pos: nat)
    requires |iv| == IvOctets && |key| <= MaxKeyLength && |body| == AuthFrameBodyLength
    requires CipherLength <= |p|
    requires |forged| == EncrAuthBodyLength && WepIvLength <= pos < EncrAuthBodyLength
    requires forged[pos] != EncryptedAuthBody(iv, keyId, key, body)[pos]
    requires forall m :: 0 <= m < EncrAuthBodyLength && m != pos ==> forged[m] == EncryptedAuthBody(iv, keyId, key, body)[m]
    ensures IcvCheck(DecryptedBuffer(p, forged, key, CipherLength), CipherLength) == IcvFail
  {
    ForgedPlaintext(iv, keyId, key, body, forged, pos);
    ForgedFailsCheck(iv, key, body, p, forged,
                     Rc4Output(WepSeed(iv, key), |key| + IvOctets, Some(forged[WepIvLength..]), CipherLength),
                     pos - WepIvLength);
  }

  /** A decrypted body and ICV that differ from the sent ones in one octet fail the ICV check. */
  lemma ForgedFailsCheck(iv: seq<byte>, key: seq<byte>, body: seq<byte>, p: seq<byte>, forged: seq<byte>,
                         d: seq<byte>, q: nat)
    requires |iv| == IvOctets && |key| <= MaxKeyLength && |body| == AuthFrameBodyLength
    requires CipherLength <= |p| && |forged| == EncrAuthBodyLength && q < CipherLength
    requires forged[..IvOctets] == iv
    requires d == Rc4Output(WepSeed(iv, key), |key| + IvOctets, Some(forged[WepIvLength..]), CipherLength)
    requires d[q] != WithIcv(body)[q]
    requires forall m :: 0 <= m < CipherLength && m != q ==> d[m] == WithIcv(body)[m]
    ensures IcvCheck(DecryptedBuffer(p, forged, key, CipherLength), CipherLength) == IcvFail
  {
    DecryptedFront(p, forged, key, CipherLength);
    IcvCheckPrefix(DecryptedBuffer(p, forged, key, CipherLength), CipherLength);
    IcvCheckFails(d, body, q);
  }

  /** The ICV check over frameLen octets looks only at the first frameLen octets. */
  lemma IcvCheckPrefix(r: seq<byte>, frameLen: nat)
    requires WepIcvLength <= frameLen <= |r|
    ensures IcvCheck(r, frameLen) == IcvCheck(r[..frameLen], frameLen)
  {
    assert r[..frameLen][..(frameLen - WepIcvLength) % 256] == r[..(frameLen - WepIcvLength) % 256];
    assert r[..frameLen][frameLen - WepIcvLength..frameLen] == r[frameLen - WepIcvLength..frameLen];
  }

  /**
   * Decrypting a body forged from an encrypted body by one octet after the IV field gives
   * body and ICV with exactly the matching octet changed.
   */
  lemma ForgedPlaintext(iv: seq<byte>, keyId: byte, key: seq<byte>, body: seq<byte>, forged: seq<byte>, pos: nat)
    requires |iv| == IvOctets && |key| <= MaxKeyLength && |body| == AuthFrameBodyLength
    requires |forged| == EncrAuthBodyLength && WepIvLength <= pos < EncrAuthBodyLength
    requires forged[pos] != EncryptedAuthBody(iv, keyId, key, body)[pos]
    requires forall m :: 0 <= m < EncrAuthBodyLength && m != pos ==> forged[m] == EncryptedAuthBody(iv, keyId, key, body)[m]
    ensures forged[..IvOctets] == iv
    ensures Rc4Output(WepSeed(iv, key), |key| + IvOctets, Some(forged[WepIvLength..]), CipherLength)[pos - WepIvLength]
         != WithIcv(body)[pos - WepIvLength]
    ensures forall m :: 0 <= m < CipherLength && m != pos - WepIvLength ==>
      Rc4Output(WepSeed(iv, key), |key| + IvOctets, Some(forged[WepIvLength..]), CipherLength)[m] == WithIcv(body)[m]
  {
    var enc := EncryptedAuthBody(iv, keyId, key, body);
    EncryptedLayout(iv, keyId, key, body);
    ForgedCipherText(enc, forged, pos);
    var seed, kl := WepSeed(iv, key), |key| + IvOctets;
    Rc4OneOctet(seed, kl, enc[WepIvLength..], forged[WepIvLength..], CipherLength, pos - WepIvLength);
    Rc4Involution(seed, kl, WithIcv(body), CipherLength);
  }

  /** A one-octet change after the IV field is a one-octet change of the cipher text. */
  lemma ForgedCipherText(enc: seq<byte>, forged: seq<byte>, pos: nat)
    requires |enc| == |forged| && WepIvLength <= pos < |enc|
    requires forall m :: 0 <= m < |enc| && m != pos ==> forged[m] == enc[m]
    ensures forall m :: 0 <= m < |enc| - WepIvLength && m != pos - WepIvLength ==>
      enc[WepIvLength..][m] == forged[WepIvLength..][m]
  {
  }
}
