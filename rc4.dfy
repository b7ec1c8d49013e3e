/**
 * The RC4 stream cipher of limRC4: a key schedule (KSA) that permutes a 256-entry state box
 * under the seed, then a keystream generator (PRGA) whose octets are XORed into the source.
 * The state box is a local array of the routine; the functional model below (KeySchedule,
 * PrgaAfter, Rc4Output) is the specification the routine is proved against.
 *
 * The box entries and the indices i and j are tANI_U8 values that the cipher only adds and
 * uses as indices; they are kept here as integers in 0..255, and every 8-bit sum of the
 * driver is written out as `% 256`. Only the keystream octet becomes a `byte`, at the XOR.
 */
module Rc4 {
  import opened LimTypes
  import opened Buffers

  /** Number of entries of the RC4 state box. */
  const SboxSize: nat := 256

  /** The value of one state-box entry (a tANI_U8). */
  type Octet = x: int | 0 <= x < 256

  /** The state box before the key schedule: entry `n` holds `n`. */
  function Identity(): (r: seq<Octet>)
    ensures |r| == SboxSize
    ensures forall n :: 0 <= n < SboxSize ==> r[n] == n
  {
    seq(SboxSize, n requires 0 <= n < SboxSize => n)
  }

  /** Exchanges entries `a` and `b`, as the driver does through a temporary. */
  function Swap(s: seq<Octet>, a: nat, b: nat): (r: seq<Octet>)
    requires a < |s| && b < |s|
    ensures |r| == |s|
  {
    s[a := s[b]][b := s[a]]
  }

  /**
   * A permutation of 0..255: 256 pairwise distinct entries, each in 0..255, so every value
   * occurs exactly once.
   */
  predicate IsPermutation(s: seq<Octet>) {
    |s| == SboxSize && forall x, y :: 0 <= x < y < |s| ==> s[x] != s[y]
  }

  /**
   * State of the key schedule: the box, the running index `j` (an 8-bit sum) and the seed
   * cursor `k`, which goes back to 0 once it reaches keyLength.
   */
  datatype KsaState = KsaState(sbox: seq<Octet>, j: Octet, k: nat)

  /** The key schedule after its first `n` steps, starting from Identity with j = k = 0. */
  function KsaAfter(seed: seq<byte>, keyLength: nat, n: nat): (st: KsaState)
    requires 0 < |seed| && keyLength <= |seed| && n <= SboxSize
    ensures |st.sbox| == SboxSize && st.k < |seed| && (0 < keyLength ==> st.k < keyLength)
  {
    if n == 0 then KsaState(Identity(), 0, 0)
    else
      var prev := KsaAfter(seed, keyLength, n - 1);
      var j := (prev.j + prev.sbox[n - 1] + seed[prev.k] as int) % SboxSize;
      var k := if prev.k + 1 >= keyLength then 0 else prev.k + 1;
      KsaState(Swap(prev.sbox, n - 1, j), j, k)
  }

  /** The state box after the whole key schedule. */
  function KeySchedule(seed: seq<byte>, keyLength: nat): (s: seq<Octet>)
    requires 0 < |seed| && keyLength <= |seed|
    ensures |s| == SboxSize
  {
    KsaAfter(seed, keyLength, SboxSize).sbox
  }

  /** State of the keystream generator (tRC4Context): the box and its indices i and j. */
  datatype Rc4State = Rc4State(sbox: seq<Octet>, i: Octet, j: Octet)

  /** One step of the generator: advance i, add the entry at i to j (both mod 256), swap the two entries. */
  function PrgaStep(st: Rc4State): (r: Rc4State)
    requires |st.sbox| == SboxSize
    ensures |r.sbox| == SboxSize
  {
    var i := (st.i + 1) % SboxSize;
    var j := (st.j + st.sbox[i]) % SboxSize;
    Rc4State(Swap(st.sbox, i, j), i, j)
  }

  /** The generator after `n` steps, starting from the scheduled box with i = j = 0. */
  function PrgaAfter(seed: seq<byte>, keyLength: nat, n: nat): (st: Rc4State)
    requires 0 < |seed| && keyLength <= |seed|
    ensures |st.sbox| == SboxSize
  {
    if n == 0 then Rc4State(KeySchedule(seed, keyLength), 0, 0)
    else PrgaStep(PrgaAfter(seed, keyLength, n - 1))
  }

  /** The keystream octet a step produces: the entry at the 8-bit sum of the two swapped entries. */
  function OutputByte(st: Rc4State): byte
    requires |st.sbox| == SboxSize
  {
    st.sbox[(st.sbox[st.i] + st.sbox[st.j]) % SboxSize] as byte
  }

  /** The first `n` octets of the keystream for `seed`: one octet per generator step. */
  function Keystream(seed: seq<byte>, keyLength: nat, n: nat): (ks: seq<byte>)
    requires 0 < |seed| && keyLength <= |seed|
    ensures |ks| == n
  {
    if n == 0 then [] else Keystream(seed, keyLength, n - 1) + [OutputByte(PrgaAfter(seed, keyLength, n))]
  }

  /** Source octet `k`; a NULL source reads as zero, so the output is the bare keystream. */
  function SourceByte(src: Option<seq<byte>>, k: nat): byte
    requires src.Some? ==> k < |src.value|
  {
    if src.Some? then src.value[k] else 0
  }

  /** The keystream `ks` XORed, octet by octet, into the source. */
  function XorStream(ks: seq<byte>, src: Option<seq<byte>>): (r: seq<byte>)
    requires src.Some? ==> |ks| <= |src.value|
    ensures |r| == |ks|
    ensures forall k :: 0 <= k < |ks| ==> r[k] == ks[k] ^ SourceByte(src, k)
  {
    seq(|ks|, k requires 0 <= k < |ks| => ks[k] ^ SourceByte(src, k))
  }

  /** The first `n` output octets of limRC4: keystream XOR source. */
  function Rc4Output(seed: seq<byte>, keyLength: nat, src: Option<seq<byte>>, n: nat): (r: seq<byte>)
    requires 0 < |seed| && keyLength <= |seed|
    requires src.Some? ==> n <= |src.value|
    ensures |r| == n
  {
    XorStream(Keystream(seed, keyLength, n), src)
  }

  /**
   * limRC4: runs the key schedule on the first keyLength octets of `seed`, then writes
   * `frameLen` mod 256 octets of keystream XOR source at `dest[destOff..]` (the length is
   * truncated to 8 bits before the generator loop).
   */
  method Rc4(dest: array<byte>, destOff: nat, src: Option<seq<byte>>, seed: seq<byte>, keyLength: nat, frameLen: nat)
    requires 0 < |seed| && keyLength <= |seed|
    requires frameLen < 0x1_0000
    requires destOff + frameLen % 256 <= dest.Length
    requires src.Some? ==> frameLen % 256 <= |src.value|
    modifies dest
    ensures dest[..] == Splice(old(dest[..]), destOff, Rc4Output(seed, keyLength, src, frameLen % 256))
  {
    var sbox := ScheduleKey(seed, keyLength);
    GeneratorLoop(dest, destOff, src, seed, keyLength, frameLen % 256, sbox);
  }

  /**
   * The first half of limRC4: a fresh state box set to the identity, then permuted by the
   * key schedule, which walks the seed cyclically over its first keyLength octets.
   */
  method ScheduleKey(seed: seq<byte>, keyLength: nat) returns (sbox: array<Octet>)
    requires 0 < |seed| && keyLength <= |seed|
    ensures fresh(sbox) && sbox[..] == KeySchedule(seed, keyLength)
  {
    sbox := new Octet[SboxSize];
    var i := 0;
    while i < SboxSize
      invariant 0 <= i <= SboxSize
      invariant forall m :: 0 <= m < i ==> sbox[m] == m
    {
      sbox[i] := i;
      i := i + 1;
    }
    assert sbox[..] == Identity();

    var j: Octet, k := 0, 0;
    i := 0;
    while i < SboxSize
      invariant 0 <= i <= SboxSize
      invariant KsaState(sbox[..], j, k) == KsaAfter(seed, keyLength, i)
    {
      j, k := KeyScheduleStep(sbox, seed, keyLength, i, j, k);
      i := i + 1;
    }
  }

  /**
   * One pass of the key-schedule loop: j takes the 8-bit sum of itself, entry i and seed
   * octet k; entries i and j swap; k advances, going back to 0 at keyLength.
   */
  method KeyScheduleStep(sbox: array<Octet>, seed: seq<byte>, keyLength: nat, i: nat, j0: Octet, k0: nat)
    returns (j: Octet, k: nat)
    requires 0 < |seed| && keyLength <= |seed| && i < SboxSize == sbox.Length
    requires KsaState(sbox[..], j0, k0) == KsaAfter(seed, keyLength, i)
    modifies sbox
    ensures KsaState(sbox[..], j, k) == KsaAfter(seed, keyLength, i + 1)
  {
    j := (j0 + sbox[i] + seed[k0] as int) % SboxSize;
    var temp := sbox[i];
    sbox[i] := sbox[j];
    sbox[j] := temp;
    k := k0 + 1;
    if k >= keyLength {
      k := 0;
    }
  }

  /** The generator loop of limRC4, on the state box the key schedule left in `sbox`. */
  method GeneratorLoop(dest: array<byte>, destOff: nat, src: Option<seq<byte>>, seed: seq<byte>, keyLength: nat,
                       len: nat, sbox: array<Octet>)
    requires 0 < |seed| && keyLength <= |seed|
    requires destOff + len <= dest.Length
    requires src.Some? ==> len <= |src.value|
    requires sbox[..] == KeySchedule(seed, keyLength) && dest as object != sbox as object
    modifies dest, sbox
    ensures dest[..] == Splice(old(dest[..]), destOff, Rc4Output(seed, keyLength, src, len))
  {
    var i: Octet, j: Octet := 0, 0;
    var n := 0;
    ghost var ks: seq<byte> := [];
    ghost var d0 := dest[..];
    while n < len
      invariant 0 <= n <= len
      invariant Rc4State(sbox[..], i, j) == PrgaAfter(seed, keyLength, n)
      invariant ks == Keystream(seed, keyLength, n)
      invariant dest[..] == Splice(d0, destOff, XorStream(ks, src))
    {
      var t;
      i, j, t := GeneratorPass(dest, destOff, src, seed, keyLength, sbox, i, j, n, ks, d0);
      ks := ks + [t];
      n := n + 1;
    }
  }

  method GeneratorPass(dest: array<byte>, destOff: nat, src: Option<seq<byte>>, seed: seq<byte>, keyLength: nat,
                       sbox: array<Octet>, i0: Octet, j0: Octet, n: nat, ghost ks: seq<byte>, ghost d0: seq<byte>)
    returns (i: Octet, j: Octet, t: byte)
    requires 0 < |seed| && keyLength <= |seed|
    requires destOff + n < dest.Length == |d0|
    requires src.Some? ==> n < |src.value|
    requires dest as object != sbox as object
    requires Rc4State(sbox[..], i0, j0) == PrgaAfter(seed, keyLength, n)
    requires ks == Keystream(seed, keyLength, n)
    requires dest[..] == Splice(d0, destOff, XorStream(ks, src))
    modifies dest, sbox
    ensures Rc4State(sbox[..], i, j) == PrgaAfter(seed, keyLength, n + 1)
    ensures ks + [t] == Keystream(seed, keyLength, n + 1)
    ensures dest[..] == Splice(d0, destOff, XorStream(ks + [t], src))
  {
    i, j, t := GeneratorStep(sbox, i0, j0);
    ghost var before := dest[..];
    WriteNext(d0, destOff, ks, t, src);
    dest[destOff + n] := t ^ SourceByte(src, n);
    assert dest[..] == before[destOff + n := t ^ SourceByte(src, n)];
  }

  lemma WriteNext(d0: seq<byte>, off: nat, ks: seq<byte>, t: byte, src: Option<seq<byte>>)
    requires src.Some? ==> |ks| < |src.value|
    requires off + |ks| < |d0|
    ensures Splice(d0, off, XorStream(ks, src))[off + |ks| := t ^ SourceByte(src, |ks|)] == Splice(d0, off, XorStream(ks + [t], src))
  {
    SpliceExtend(d0, off, XorStream(ks, src), t ^ SourceByte(src, |ks|));
    XorStreamSnoc(ks, t, src);
  }

  /** One pass of the generator loop on the box: the indices advance, two entries swap, and `t` is the keystream entry. */
  method GeneratorStep(sbox: array<Octet>, i0: Octet, j0: Octet) returns (i: Octet, j: Octet, t: byte)
    requires sbox.Length == SboxSize
    modifies sbox
    ensures Rc4State(sbox[..], i, j) == PrgaStep(Rc4State(old(sbox[..]), i0, j0))
    ensures t == OutputByte(Rc4State(sbox[..], i, j))
  {
    i := (i0 + 1) % SboxSize;
    var temp1 := sbox[i];
    j := (j0 + temp1) % SboxSize;
    var temp2 := sbox[j];
    sbox[i] := temp2;
    sbox[j] := temp1;
    t := sbox[(temp1 + temp2) % SboxSize] as byte;
  }

  // ---------------------------------------------------------------------------
  // Properties of the cipher
  // ---------------------------------------------------------------------------

  lemma IdentityIsPermutation()
    ensures IsPermutation(Identity())
  {
  }

  /** Swapping two entries of a permutation leaves a permutation. */
  lemma SwapPermutes(s: seq<Octet>, a: nat, b: nat)
    requires a < |s| && b < |s| && IsPermutation(s)
    ensures IsPermutation(Swap(s, a, b))
  {
    var r := Swap(s, a, b);
    forall x, y | 0 <= x < y < |r|
      ensures r[x] != r[y]
    {
      var x' := if x == a then b else if x == b then a else x;
      var y' := if y == a then b else if y == b then a else y;
      assert r[x] == s[x'] && r[y] == s[y'];
    }
  }

  lemma KsaStepPermutes(seed: seq<byte>, keyLength: nat, n: nat)
    requires 0 < |seed| && keyLength <= |seed| && 0 < n <= SboxSize
    requires IsPermutation(KsaAfter(seed, keyLength, n - 1).sbox)
    ensures IsPermutation(KsaAfter(seed, keyLength, n).sbox)
  {
    var prev := KsaAfter(seed, keyLength, n - 1);
    SwapPermutes(prev.sbox, n - 1, (prev.j + prev.sbox[n - 1] + seed[prev.k] as int) % SboxSize);
  }

  /** Every state of the key schedule holds a permutation of 0..255. */
  lemma {:induction false} KsaPermutes(seed: seq<byte>, keyLength: nat, n: nat)
    requires 0 < |seed| && keyLength <= |seed| && n <= SboxSize
    ensures IsPermutation(KsaAfter(seed, keyLength, n).sbox)
  {
    if n == 0 {
      IdentityIsPermutation();
    } else {
      KsaPermutes(seed, keyLength, n - 1);
      KsaStepPermutes(seed, keyLength, n);
    }
  }

  /** One generator step only swaps two entries. */
  lemma PrgaStepPermutes(st: Rc4State)
    requires IsPermutation(st.sbox)
    ensures IsPermutation(PrgaStep(st).sbox)
  {
    var i := (st.i + 1) % SboxSize;
    SwapPermutes(st.sbox, i, (st.j + st.sbox[i]) % SboxSize);
  }

  /** Every state of the generator still holds a permutation of 0..255. */
  lemma {:induction false} PrgaPermutes(seed: seq<byte>, keyLength: nat, n: nat)
    requires 0 < |seed| && keyLength <= |seed|
    ensures IsPermutation(PrgaAfter(seed, keyLength, n).sbox)
  {
    if n == 0 {
      KsaPermutes(seed, keyLength, SboxSize);
    } else {
      PrgaPermutes(seed, keyLength, n - 1);
      PrgaStepPermutes(PrgaAfter(seed, keyLength, n - 1));
    }
  }

  /** Extending the keystream by one octet extends the output by that octet XOR the next source octet. */
  lemma XorStreamSnoc(ks: seq<byte>, x: byte, src: Option<seq<byte>>)
    requires src.Some? ==> |ks| < |src.value|
    ensures XorStream(ks + [x], src) == XorStream(ks, src) + [x ^ SourceByte(src, |ks|)]
  {
  }

  /** The key schedule reads only the first keyLength octets of the seed. */
  lemma {:induction false} KsaSeedPrefix(seed: seq<byte>, keyLength: nat, n: nat)
    requires 0 < keyLength <= |seed| && n <= SboxSize
    ensures KsaAfter(seed, keyLength, n) == KsaAfter(seed[..keyLength], keyLength, n)
  {
    if n > 0 {
      KsaSeedPrefix(seed, keyLength, n - 1);
    }
  }

  /** The generator states depend only on the first keyLength octets of the seed. */
  lemma {:induction false} PrgaSeedPrefix(seed: seq<byte>, keyLength: nat, n: nat)
    requires 0 < keyLength <= |seed|
    ensures PrgaAfter(seed, keyLength, n) == PrgaAfter(seed[..keyLength], keyLength, n)
  {
    if n == 0 {
      KsaSeedPrefix(seed, keyLength, SboxSize);
    } else {
      PrgaSeedPrefix(seed, keyLength, n - 1);
    }
  }

  /** So does the keystream. */
  lemma {:induction false} KeystreamSeedPrefix(seed: seq<byte>, keyLength: nat, n: nat)
    requires 0 < keyLength <= |seed|
    ensures Keystream(seed, keyLength, n) == Keystream(seed[..keyLength], keyLength, n)
  {
    if n > 0 {
      KeystreamSeedPrefix(seed, keyLength, n - 1);
      PrgaSeedPrefix(seed, keyLength, n);
    }
  }

  /** limRC4 reads only the first keyLength octets of its seed buffer. */
  lemma Rc4SeedPrefix(seed: seq<byte>, keyLength: nat, src: Option<seq<byte>>, n: nat)
    requires 0 < keyLength <= |seed|
    requires src.Some? ==> n <= |src.value|
    ensures Rc4Output(seed, keyLength, src, n) == Rc4Output(seed[..keyLength], keyLength, src, n)
  {
    KeystreamSeedPrefix(seed, keyLength, n);
  }

  /** Only the first |ks| source octets reach the output. */
  lemma XorStreamSourcePrefix(ks: seq<byte>, s: seq<byte>)
    requires |ks| <= |s|
    ensures XorStream(ks, Some(s)) == XorStream(ks, Some(s[..|ks|]))
  {
  }

  lemma XorTwice(k: byte, p: byte)
    ensures k ^ (k ^ p) == p
  {
  }

  /** XORing the same keystream twice restores the source. */
  lemma XorStreamInvolution(ks: seq<byte>, p: seq<byte>)
    requires |ks| <= |p|
    ensures XorStream(ks, Some(XorStream(ks, Some(p)))) == p[..|ks|]
  {
    var c := XorStream(ks, Some(p));
    forall k | 0 <= k < |ks|
      ensures XorStream(ks, Some(c))[k] == p[k]
    {
      XorTwice(ks[k], p[k]);
    }
  }

  /** RC4 is its own inverse: running it again with the same seed restores the source. */
  lemma Rc4Involution(seed: seq<byte>, keyLength: nat, p: seq<byte>, n: nat)
    requires 0 < |seed| && keyLength <= |seed| && n <= |p|
    ensures Rc4Output(seed, keyLength, Some(Rc4Output(seed, keyLength, Some(p), n)), n) == p[..n]
  {
    XorStreamInvolution(Keystream(seed, keyLength, n), p);
  }

  /** Changing one source octet changes exactly the matching output octet. */
  lemma XorStreamOneOctet(ks: seq<byte>, p: seq<byte>, q: seq<byte>, pos: nat)
    requires |ks| <= |p| == |q| && pos < |ks|
    requires forall m :: 0 <= m < |p| && m != pos ==> p[m] == q[m]
    ensures forall m :: 0 <= m < |ks| && m != pos ==> XorStream(ks, Some(p))[m] == XorStream(ks, Some(q))[m]
    ensures p[pos] != q[pos] ==> XorStream(ks, Some(p))[pos] != XorStream(ks, Some(q))[pos]
  {
    XorTwice(ks[pos], p[pos]);
    XorTwice(ks[pos], q[pos]);
  }

  /** Changing one source octet of limRC4 changes exactly the matching output octet. */
  lemma Rc4OneOctet(seed: seq<byte>, keyLength: nat, p: seq<byte>, q: seq<byte>, n: nat, pos: nat)
    requires 0 < |seed| && keyLength <= |seed| && n <= |p| == |q| && pos < n
    requires forall m :: 0 <= m < |p| && m != pos ==> p[m] == q[m]
    ensures forall m :: 0 <= m < n && m != pos ==>
      Rc4Output(seed, keyLength, Some(p), n)[m] == Rc4Output(seed, keyLength, Some(q), n)[m]
    ensures p[pos] != q[pos] ==> Rc4Output(seed, keyLength, Some(p), n)[pos] != Rc4Output(seed, keyLength, Some(q), n)[pos]
  {
    XorStreamOneOctet(Keystream(seed, keyLength, n), p, q, pos);
  }
}
