/** Octets and the multi-octet integers of the wire format. */
module Octets {
  type Octet = bv8
  type u5 = x: int | 0 <= x < 32
  type u8 = x: int | 0 <= x < 0x100
  type u16 = x: int | 0 <= x < 0x1_0000
  type u32 = x: int | 0 <= x < 0x1_0000_0000

  /** What an eight-bit variable holds after n is assigned to it. */
  function Wrapped(n: int): u8 {
    n % 0x100
  }

  lemma WrappedInRange(n: u8)
    ensures Wrapped(n) == n
  {
  }

  lemma SuccessorOfOctet(b: bv8)
    requires b != 0xFF
    ensures (b + 1) as int == b as int + 1
  {
  }

  lemma SuccessorOfFiveBits(b: bv5)
    requires b != 0x1F
    ensures (b + 1) as int == b as int + 1
  {
  }

  /** The octet whose value is n. */
  function OctetOf(n: u8): (b: Octet)
    ensures b as int == n
  {
    if n == 0 then 0
    else
      var c := OctetOf(n - 1);
      assert c != 0xFF;
      SuccessorOfOctet(c);
      c + 1
  }

  /** The five-bit field whose value is n. */
  function FiveBitsOf(n: u5): (b: bv5)
    ensures b as int == n
  {
    if n == 0 then 0
    else
      var c := FiveBitsOf(n - 1);
      assert c != 0x1F;
      SuccessorOfFiveBits(c);
      c + 1
  }

  lemma OctetIsItsValue(b: Octet, c: Octet)
    requires b as int == c as int
    ensures b == c
  {
  }

  lemma FiveBitsAreTheirValue(b: bv5, c: bv5)
    requires b as int == c as int
    ensures b == c
  {
  }

  /** `htons` followed by a two-octet copy. */
  function NetworkU16(n: u16): (s: seq<Octet>)
    ensures |s| == 2
  {
    [OctetOf(n / 0x100), OctetOf(n % 0x100)]
  }

  /** A two-octet copy followed by `ntohs`. */
  function HostU16(hi: Octet, lo: Octet): u16 {
    hi as int * 0x100 + lo as int
  }

  lemma U16RoundTrip(n: u16)
    ensures HostU16(NetworkU16(n)[0], NetworkU16(n)[1]) == n
  {
  }

  lemma NetworkU16Injective(hi: Octet, lo: Octet)
    ensures NetworkU16(HostU16(hi, lo)) == [hi, lo]
  {
    OctetIsItsValue(NetworkU16(HostU16(hi, lo))[0], hi);
    OctetIsItsValue(NetworkU16(HostU16(hi, lo))[1], lo);
  }

  /** `htonl` followed by a four-octet copy. */
  function NetworkU32(n: bv32): (s: seq<Octet>)
    ensures |s| == 4
  {
    [(n >> 24) as bv8, ((n >> 16) & 0xFF) as bv8, ((n >> 8) & 0xFF) as bv8, (n & 0xFF) as bv8]
  }

  /** A four-octet copy followed by `ntohl`. */
  function HostU32(s: seq<Octet>): bv32
    requires |s| == 4
  {
    ((s[0] as bv32) << 24) | ((s[1] as bv32) << 16) | ((s[2] as bv32) << 8) | (s[3] as bv32)
  }

  lemma U32RoundTrip(n: bv32)
    ensures HostU32(NetworkU32(n)) == n
  {
  }

  lemma NetworkU32OfHostU32(s: seq<Octet>)
    requires |s| == 4
    ensures NetworkU32(HostU32(s)) == s
  {
  }

  /** A four-octet copy without conversion, as a little-endian host stores it. */
  function NativeU32(n: u32): (s: seq<Octet>)
    ensures |s| == 4
  {
    NativeU16(n % 0x1_0000) + NativeU16(n / 0x1_0000)
  }

  function NativeU16(n: u16): (s: seq<Octet>)
    ensures |s| == 2 && OfNativeU16(s[0], s[1]) == n
  {
    [OctetOf(n % 0x100), OctetOf(n / 0x100)]
  }

  function OfNativeU16(lo: Octet, hi: Octet): u16 {
    hi as int * 0x100 + lo as int
  }

  function OfNativeU32(s: seq<Octet>): u32
    requires |s| == 4
  {
    OfNativeU16(s[2], s[3]) * 0x1_0000 + OfNativeU16(s[0], s[1])
  }

  lemma NativeU32RoundTrip(n: u32)
    ensures OfNativeU32(NativeU32(n)) == n
  {
    hide NativeU16, OfNativeU16;
  }

  lemma NativeU16OfOfNativeU16(lo: Octet, hi: Octet)
    ensures NativeU16(OfNativeU16(lo, hi)) == [lo, hi]
  {
    OctetIsItsValue(NativeU16(OfNativeU16(lo, hi))[0], lo);
    OctetIsItsValue(NativeU16(OfNativeU16(lo, hi))[1], hi);
  }

  lemma HalvesOfSum(lo: u16, hi: u16)
    ensures (hi * 0x1_0000 + lo) % 0x1_0000 == lo && (hi * 0x1_0000 + lo) / 0x1_0000 == hi
  {
  }

  lemma NativeU32OfOfNativeU32(s: seq<Octet>)
    requires |s| == 4
    ensures NativeU32(OfNativeU32(s)) == s
  {
    hide NativeU16, OfNativeU16;
    NativeU16OfOfNativeU16(s[0], s[1]);
    NativeU16OfOfNativeU16(s[2], s[3]);
    HalvesOfSum(OfNativeU16(s[0], s[1]), OfNativeU16(s[2], s[3]));
    assert [s[0], s[1]] + [s[2], s[3]] == s;
  }

  lemma HostU32Injective(s: seq<Octet>, t: seq<Octet>)
    requires |s| == |t| == 4 && HostU32(s) == HostU32(t)
    ensures s == t
  {
    NetworkU32OfHostU32(s);
    NetworkU32OfHostU32(t);
  }
}
