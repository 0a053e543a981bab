/** The Keccak parameter table of the QSC library (sha3.h): domain
    identifiers, rates, state sizes, round bounds, output and key sizes, and
    the layouts of the Keccak and KPA states. Only the arithmetic among these
    parameters is modelled; the permutation and the sponge functions are not. */
module Keccak {

  datatype Option<T> = None | Some(value: T)

  // Domain identifiers (sha3.h lines 109-151).
  const CshakeDomainId: nat := 0x04
  const KmacDomainId: nat := 0x04
  const KpaDomainId: nat := 0x41
  const Sha3DomainId: nat := 0x06
  const ShakeDomainId: nat := 0x1F

  // Permutation round counts (sha3.h lines 127-139, 765).
  const PermutationRounds: nat := 24
  const PermutationMaxRounds: nat := 48
  const PermutationMinRounds: nat := 12
  const KpaRounds: nat := 12

  // State sizes and rates in bytes (sha3.h lines 157-187).
  const StateByteSize: nat := 200
  const Keccak128Rate: nat := 168
  const Keccak256Rate: nat := 136
  const Keccak512Rate: nat := 72
  /** The state in 64-bit lanes. */
  const StateSize: nat := 25

  // Output and key sizes in bytes (sha3.h lines 193-229, 747-771).
  const Kmac256KeySize: nat := 32
  const Kmac512KeySize: nat := 64
  const Sha3128HashSize: nat := 16
  const Sha3256HashSize: nat := 32
  const Sha3512HashSize: nat := 64
  const Shake256KeySize: nat := 32
  const Shake512KeySize: nat := 64
  const Kpa128KeySize: nat := 16
  const Kpa256KeySize: nat := 32
  const Kpa512KeySize: nat := 64
  /** The number of Keccak states a KPA instance runs side by side. */
  const KpaParallelism: nat := 8

  /** qsc_keccak_rate: the three security levels. */
  datatype Rate = Rate128 | Rate256 | Rate512

  /** The security level a rate is named after, in bits. */
  function SecurityBits(r: Rate): nat
  {
    match r
    case Rate128 => 128
    case Rate256 => 256
    case Rate512 => 512
  }

  /** The byte value of each member of qsc_keccak_rate. Every rate is a whole
      number of lanes smaller than the state, and rate plus a capacity of twice
      the security level fills the 1600-bit state. */
  function RateBytes(r: Rate): (n: nat)
    ensures 0 < n < StateByteSize && n % 8 == 0
    ensures 8 * n + 2 * SecurityBits(r) == 8 * StateByteSize
  {
    match r
    case Rate128 => Keccak128Rate
    case Rate256 => Keccak256Rate
    case Rate512 => Keccak512Rate
  }

  /** The SHA3 hash size constant for a rate. */
  function HashSize(r: Rate): nat
  {
    match r
    case Rate128 => Sha3128HashSize
    case Rate256 => Sha3256HashSize
    case Rate512 => Sha3512HashSize
  }

  /** The SHA3 output size qsc_sha3_finalize documents for a rate,
      (200 - rate) / 2. It equals the hash size constant for that rate, which
      is the security level in bytes, and rate plus twice it is the whole
      state. */
  function Sha3OutputSize(r: Rate): (n: nat)
    ensures n == HashSize(r)
    ensures 8 * n == SecurityBits(r)
    ensures RateBytes(r) + 2 * n == StateByteSize
  {
    (StateByteSize - RateBytes(r)) / 2
  }

  /** The KMAC key size constant for a rate; there is none for 128. Each is
      the security level in bytes. */
  function KmacKeySize(r: Rate): (n: Option<nat>)
    ensures n.Some? <==> r != Rate128
    ensures n.Some? ==> 8 * n.value == SecurityBits(r)
  {
    match r
    case Rate128 => None
    case Rate256 => Some(Kmac256KeySize)
    case Rate512 => Some(Kmac512KeySize)
  }

  /** The SHAKE key size constant for a rate; there is none for 128. Each is
      the security level in bytes. */
  function ShakeKeySize(r: Rate): (n: Option<nat>)
    ensures n.Some? <==> r != Rate128
    ensures n.Some? ==> 8 * n.value == SecurityBits(r)
  {
    match r
    case Rate128 => None
    case Rate256 => Some(Shake256KeySize)
    case Rate512 => Some(Shake512KeySize)
  }

  /** The KPA key size constant for a rate: the security level in bytes. */
  function KpaKeySize(r: Rate): (n: nat)
    ensures 8 * n == SecurityBits(r)
  {
    match r
    case Rate128 => Kpa128KeySize
    case Rate256 => Kpa256KeySize
    case Rate512 => Kpa512KeySize
  }

  /** A round count the permutation accepts. */
  predicate ValidRounds(n: nat)
  {
    PermutationMinRounds <= n <= PermutationMaxRounds
  }

  /** The standard round count and the KPA round count are both accepted, and
      the minimum does not exceed the standard count. */
  lemma RoundBounds()
    ensures ValidRounds(PermutationRounds) && ValidRounds(KpaRounds)
    ensures PermutationMinRounds <= PermutationRounds <= PermutationMaxRounds
    ensures KpaRounds == PermutationMinRounds
  {
  }

  /** The constructions that take a domain identifier. */
  datatype Construction = Sha3 | Shake | Cshake | Kmac | Kpa

  /** The domain identifier each construction uses. */
  function DomainId(c: Construction): nat
  {
    match c
    case Sha3 => Sha3DomainId
    case Shake => ShakeDomainId
    case Cshake => CshakeDomainId
    case Kmac => KmacDomainId
    case Kpa => KpaDomainId
  }

  /** The domain-separation suffix of each construction, first bit first:
      01 for SHA3 and 1111 for SHAKE (sections 6.1 and 6.2 of FIPS 202), 00
      for cSHAKE and for KMAC, which is built on cSHAKE (sections 3.3 and 4.3
      of NIST SP 800-185). KPA follows no standard; its suffix is 100000. */
  function DomainSuffix(c: Construction): seq<bool>
  {
    match c
    case Sha3 => [false, true]
    case Shake => [true, true, true, true]
    case Cshake => [false, false]
    case Kmac => [false, false]
    case Kpa => [true, false, false, false, false, false]
  }

  function Pow2(n: nat): nat
  {
    if n == 0 then 1 else 2 * Pow2(n - 1)
  }

  /** The byte a suffix becomes when it is followed by the first bit of the
      pad10*1 padding and read least significant bit first: the padding bit
      is the highest set bit and sits just above the suffix. */
  function SuffixByte(bits: seq<bool>): (b: nat)
    ensures Pow2(|bits|) <= b < 2 * Pow2(|bits|)
  {
    if bits == [] then 1 else (if bits[0] then 1 else 0) + 2 * SuffixByte(bits[1..])
  }

  /** The suffix a domain byte encodes: the bits below its highest set bit,
      least significant first. */
  function Suffix(d: nat): (bits: seq<bool>)
    requires d >= 1
    ensures Pow2(|bits|) <= d < 2 * Pow2(|bits|)
    decreases d
  {
    if d == 1 then [] else [d % 2 == 1] + Suffix(d / 2)
  }

  lemma HalfOf(x: nat, r: nat)
    requires x < 2 && r >= 1
    ensures x + 2 * r != 1 && (x + 2 * r) % 2 == x && (x + 2 * r) / 2 == r
  {
  }

  /** Decoding a suffix byte gives back the suffix. */
  lemma {:induction false} SuffixOfSuffixByte(bits: seq<bool>)
    ensures Suffix(SuffixByte(bits)) == bits
  {
    if bits != [] {
      var x := if bits[0] then 1 else 0;
      var r := SuffixByte(bits[1..]);
      var b := x + 2 * r;
      assert SuffixByte(bits) == b;
      HalfOf(x, r);
      SuffixOfSuffixByte(bits[1..]);
      assert Suffix(b) == [b % 2 == 1] + Suffix(b / 2);
      assert bits == [bits[0]] + bits[1..];
    }
  }

  /** Encoding the suffix of a nonzero byte gives back the byte. */
  lemma {:induction false} SuffixByteOfSuffix(d: nat)
    requires d >= 1
    ensures SuffixByte(Suffix(d)) == d
  {
    if d != 1 {
      var s := Suffix(d);
      assert s == [d % 2 == 1] + Suffix(d / 2);
      assert s[1..] == Suffix(d / 2);
      SuffixByteOfSuffix(d / 2);
    }
  }

  /** Distinct suffixes give distinct domain bytes. */
  lemma SuffixByteInjective(s: seq<bool>, t: seq<bool>)
    requires s != t
    ensures SuffixByte(s) != SuffixByte(t)
  {
    SuffixOfSuffixByte(s);
    SuffixOfSuffixByte(t);
  }

  /** Every domain identifier is its construction's suffix followed by the
      first padding bit. */
  lemma {:induction false} DomainIdsFollowSuffixRules(c: Construction)
    ensures DomainId(c) == SuffixByte(DomainSuffix(c))
  {
    assert SuffixByte([]) == 1;
    assert SuffixByte([true]) == 3;
    assert SuffixByte([false]) == 2;
    match c
    case Sha3 =>
      assert [false, true][1..] == [true];
    case Shake =>
      assert [true, true, true, true][1..] == [true, true, true];
      assert [true, true, true][1..] == [true, true];
      assert [true, true][1..] == [true];
    case Cshake =>
      assert [false, false][1..] == [false];
    case Kmac =>
      assert [false, false][1..] == [false];
    case Kpa =>
      var z := [false, false, false, false, false];
      assert [true] + z == [true, false, false, false, false, false];
      assert z[1..] == [false, false, false, false];
      assert z[1..][1..] == [false, false, false];
      assert z[1..][1..][1..] == [false, false];
      assert z[1..][1..][1..][1..] == [false];
      assert SuffixByte([false, false]) == 4;
      assert SuffixByte([false, false, false]) == 8;
      assert SuffixByte([false, false, false, false]) == 16;
      assert SuffixByte(z) == 32;
  }

  /** The SHA3, SHAKE, cSHAKE and KPA identifiers are pairwise distinct;
      KMAC shares cSHAKE's identifier. */
  lemma DomainIdsSeparate(c: Construction, e: Construction)
    ensures DomainId(c) == DomainId(e) <==> DomainSuffix(c) == DomainSuffix(e)
    ensures DomainId(Kmac) == DomainId(Cshake)
    ensures DomainId(Sha3) != DomainId(Shake) && DomainId(Sha3) != DomainId(Cshake)
    ensures DomainId(Sha3) != DomainId(Kpa) && DomainId(Shake) != DomainId(Cshake)
    ensures DomainId(Shake) != DomainId(Kpa) && DomainId(Cshake) != DomainId(Kpa)
  {
    DomainIdsFollowSuffixRules(c);
    DomainIdsFollowSuffixRules(e);
    if DomainSuffix(c) != DomainSuffix(e) {
      SuffixByteInjective(DomainSuffix(c), DomainSuffix(e));
    }
  }

  /** qsc_keccak_state: 25 lanes, a one-state message buffer and a position. */
  datatype KeccakState = KeccakState(state: seq<bv64>, buffer: seq<bv8>, position: nat)
  {
    predicate WellSized()
    {
      |state| == StateSize && |buffer| == StateByteSize
    }
  }

  /** The message buffer of a Keccak state holds exactly the state's bytes,
      and a rate block fits in it. */
  lemma KeccakLayout(s: KeccakState, r: Rate)
    requires s.WellSized()
    ensures 8 * |s.state| == |s.buffer|
    ensures RateBytes(r) < |s.buffer|
  {
  }

  /** qsc_kpa_state: one lane state per parallel instance, a buffer of one
      state's bytes per instance, a position, a processed-byte count and the
      rate. */
  datatype KpaState = KpaState(state: seq<seq<bv64>>, buffer: seq<bv8>, position: nat, processed: nat, rate: Rate)
  {
    predicate WellSized()
    {
      && |state| == KpaParallelism
      && (forall i :: 0 <= i < |state| ==> |state[i]| == StateSize)
      && |buffer| == KpaParallelism * StateByteSize
    }
  }

  /** A KPA state holds eight Keccak states side by side, and its buffer holds
      one state's bytes for each, 1600 bytes in all. */
  lemma KpaLayout(s: KpaState)
    requires s.WellSized()
    ensures |s.buffer| == 1600
    ensures forall i :: 0 <= i < |s.state| ==> KeccakState(s.state[i], s.buffer[i * StateByteSize .. (i + 1) * StateByteSize], 0).WellSized()
  {
  }
}
