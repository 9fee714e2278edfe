/** Eight-bit sequence numbers: the tests of both ends, and when they agree with the absolute packet numbers. */
module SeqNum {
  import opened Octets

  /** The sequence number on the wire of packet number n. */
  function Wire(n: int): u8 {
    n % 256
  }

  /** `is_higher_or_equal` on a window that is not empty: does acknowledging seqnum cover the packet ref? */
  predicate HigherOrEqual(seqnum: u8, ref: u8) {
    if seqnum < ref && ref - seqnum > 100 then true
    else if ref < seqnum && seqnum - ref > 100 then false
    else seqnum >= ref
  }

  /** `in_window`: admits 33 offsets although the window has 31 slots. */
  predicate InWindow(waited: u8, received: u8) {
    if received >= waited then received - waited <= 32 else 256 + received - waited <= 32
  }

  /** `ind`: the offset of a sequence number from the awaited one. */
  function Ind(toPlace: u8, waited: u8): (offset: u8)
    ensures InWindow(waited, toPlace) <==> offset <= 32
  {
    var diff := toPlace - waited;
    if diff < 0 then diff + 256 else diff
  }

  /** What the sender does with the number of an ACK or NACK: one less, modulo 256. */
  function Previous(seqnum: u8): u8 {
    if seqnum != 0 then seqnum - 1 else 255
  }

  lemma PreviousIsPredecessor(n: int)
    ensures Previous(Wire(n)) == Wire(n - 1)
  {
  }

  lemma WireOfWire(n: int, i: int)
    ensures Wire(Wire(n) + i) == Wire(n + i)
  {
    assert n == 256 * (n / 256) + Wire(n);
    assert n + i == 256 * (n / 256) + (Wire(n) + i);
  }

  lemma WireOfOctet(n: u8)
    ensures Wire(n) == n
  {
  }

  lemma WireInjective(a: int, b: int)
    requires -256 < a - b < 256
    ensures Wire(a) == Wire(b) <==> a == b
  {
    assert a == 256 * (a / 256) + Wire(a) && b == 256 * (b / 256) + Wire(b);
  }

  lemma WireSuccessor(n: int)
    ensures Wire(n + 1) == (Wire(n) + 1) % 256
  {
    WireOfWire(n, 1);
  }

  lemma WireDifference(a: int, b: int)
    requires -256 < a - b < 256
    ensures Wire(a) - Wire(b) == a - b || Wire(a) - Wire(b) == a - b - 256 || Wire(a) - Wire(b) == a - b + 256
  {
    assert a == 256 * (a / 256) + Wire(a) && b == 256 * (b / 256) + Wire(b);
  }

  lemma HigherOrEqualIsAbsolute(a: int, head: int)
    requires -100 <= a - head <= 100
    ensures HigherOrEqual(Wire(a), Wire(head)) <==> a >= head
  {
    WireDifference(a, head);
  }

  /** The comparison agrees with the packet numbers at distance d, for every window, exactly when d is within 100. */
  lemma HigherOrEqualRange(d: int)
    requires -255 <= d <= 255
    ensures (forall head: nat :: HigherOrEqual(Wire(head + d), Wire(head)) <==> d >= 0) <==> -100 <= d <= 100
  {
    if -100 <= d <= 100 {
      forall head: nat
        ensures HigherOrEqual(Wire(head + d), Wire(head)) <==> d >= 0
      {
        HigherOrEqualIsAbsolute(head + d, head);
      }
    } else if d > 100 {
      assert !HigherOrEqual(Wire(0 + d), Wire(0));
    } else {
      var head: nat := -d;
      assert HigherOrEqual(Wire(head + d), Wire(head));
    }
  }

  /** Exactly when a number d behind the head, at most 255, is taken for one ahead of it. */
  lemma BehindTakenForAhead(head: int, d: nat)
    requires 1 <= d <= 255
    ensures HigherOrEqual(Wire(head - d), Wire(head)) <==> if d <= Wire(head) then d > 100 else d >= 156
  {
    WireDifference(head - d, head);
  }

  lemma IndIsOffset(n: int, waited: int)
    requires -256 < n - waited < 256
    ensures Ind(Wire(n), Wire(waited)) == if n >= waited then n - waited else n - waited + 256
  {
    WireDifference(n, waited);
  }

  lemma IndIsModular(n: int, waited: int)
    ensures Ind(Wire(n), Wire(waited)) == (n - waited) % 256
  {
    assert n == 256 * (n / 256) + Wire(n) && waited == 256 * (waited / 256) + Wire(waited);
    WireOfWire(n - waited, 0);
    RemainderOfSum(Wire(n) - Wire(waited), n / 256 - waited / 256);
  }

  lemma RemainderOfSum(d: int, q: int)
    ensures (d + 256 * q) % 256 == d % 256
  {
    assert d + 256 * q == 256 * (d / 256 + q) + d % 256;
  }

  /** A packet the receiver has passed is kept out of its window exactly when it is 1 to 223 behind, modulo 256. */
  lemma PassedPacketsAreOutside(n: int, waited: int)
    requires n < waited
    ensures !InWindow(Wire(waited), Wire(n)) <==> 1 <= (waited - n) % 256 <= 223
    ensures Wire(n) == Wire(waited) <==> (waited - n) % 256 == 0
  {
    IndIsModular(n, waited);
    IndIsModular(waited, n);
  }
}
