/**
 The CRC-32 of section 8 of RFC 1952 (reflected polynomial 0xEDB88320, register preset to ones, result complemented),
 computed bit by bit on the 32-bit register. It is what zlib's `crc32` returns.
 */
module Crc32 {
  import opened Octets

  function ShiftBit(c: bv32): bv32 {
    if c & 1 == 1 then (c >> 1) ^ 0xEDB88320 else c >> 1
  }

  function ShiftBits(c: bv32, n: nat): bv32
    decreases n, c
  {
    if n == 0 then c else ShiftBits(ShiftBit(c), n - 1)
  }

  function Mix(c: bv32, b: Octet): bv32 {
    c ^ (b as bv32)
  }

  function Step(c: bv32, b: Octet): bv32 {
    ShiftBits(Mix(c, b), 8)
  }

  function Run(c: bv32, s: seq<Octet>): bv32
    decreases |s|
  {
    if |s| == 0 then c else Run(Step(c, s[0]), s[1..])
  }

  function Crc(s: seq<Octet>): bv32 {
    !Run(0xFFFFFFFF, s)
  }

  lemma ShiftBitInjective(a: bv32, b: bv32)
    requires ShiftBit(a) == ShiftBit(b)
    ensures a == b
  {
  }

  lemma {:induction false} ShiftBitsInjective(a: bv32, b: bv32, n: nat)
    requires ShiftBits(a, n) == ShiftBits(b, n)
    ensures a == b
    decreases n
  {
    if n != 0 {
      ShiftBitsInjective(ShiftBit(a), ShiftBit(b), n - 1);
      ShiftBitInjective(a, b);
    }
  }

  lemma MixInjectiveInState(a: bv32, b: bv32, x: Octet)
    requires Mix(a, x) == Mix(b, x)
    ensures a == b
  {
  }

  lemma MixInjectiveInOctet(a: bv32, x: Octet, y: Octet)
    requires Mix(a, x) == Mix(a, y)
    ensures x == y
  {
  }

  lemma StepInjective(a: bv32, b: bv32, x: Octet, y: Octet)
    requires Step(a, x) == Step(b, y)
    ensures x == y ==> a == b
    ensures a == b ==> x == y
  {
    ShiftBitsInjective(Mix(a, x), Mix(b, y), 8);
    if x == y {
      MixInjectiveInState(a, b, x);
    } else if a == b {
      MixInjectiveInOctet(a, x, y);
    }
  }

  /** Two registers that differ never meet again on the same octets. */
  lemma {:induction false} RunInjectiveInState(a: bv32, b: bv32, s: seq<Octet>)
    requires Run(a, s) == Run(b, s)
    ensures a == b
    decreases |s|
  {
    if |s| != 0 {
      RunInjectiveInState(Step(a, s[0]), Step(b, s[0]), s[1..]);
      StepInjective(a, b, s[0], s[0]);
    }
  }

  lemma {:induction false} RunDetectsOneOctet(c: bv32, s: seq<Octet>, i: nat, b: Octet)
    requires i < |s| && s[i] != b
    ensures Run(c, s) != Run(c, s[i := b])
    decreases |s|
  {
    var t := s[i := b];
    if i == 0 {
      assert t[1..] == s[1..];
      if Run(c, s) == Run(c, t) {
        RunInjectiveInState(Step(c, s[0]), Step(c, b), s[1..]);
        StepInjective(c, c, s[0], b);
      }
    } else {
      assert t[1..] == s[1..][i - 1 := b];
      RunDetectsOneOctet(Step(c, s[0]), s[1..], i - 1, b);
    }
  }

  /** Replacing any one octet changes the CRC. */
  lemma DetectsOneOctet(s: seq<Octet>, i: nat, b: Octet)
    requires i < |s| && s[i] != b
    ensures Crc(s) != Crc(s[i := b])
  {
    RunDetectsOneOctet(0xFFFFFFFF, s, i, b);
  }

  lemma RunOne(c: bv32, s: seq<Octet>)
    requires |s| != 0
    ensures Run(c, s) == Run(Step(c, s[0]), s[1..])
  {
  }

  /** The published check value: the CRC of the ASCII digits 1 to 9. */
  lemma CheckValue(s: seq<Octet>)
    requires s == [0x31, 0x32, 0x33, 0x34, 0x35, 0x36, 0x37, 0x38, 0x39]
    ensures Crc(s) == 0xCBF43926
  {
    RunOne(0xFFFFFFFF, s);
    RunOne(0x7C231048, s[1..]);
    RunOne(0xB0ACBB32, s[2..]);
    RunOne(0x77B79C2D, s[3..]);
    RunOne(0x641C1F5C, s[4..]);
    RunOne(0x340AC5E3, s[5..]);
    RunOne(0xF68D2C9E, s[6..]);
    RunOne(0xAFFC9660, s[7..]);
    RunOne(0x651F2550, s[8..]);
  }
}
