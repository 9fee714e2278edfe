/** What the blocks of the sending loop amount to, in terms of numbers, fields and clock readings alone. */
module SenderLaws {
  import opened Octets
  import opened Options
  import opened Packets
  import opened SeqNum
  import opened SenderQueue
  import opened SenderSpec

  // ---- input, and the packet that closes the receiver

  /** A chunk that is read goes out as the next packet, stamped with the clock, and takes up one place. */
  lemma InputLaw(s: SState, chunk: seq<Octet>, clock: u32)
    requires |chunk| <= MAX_PAYLOAD_SIZE
    ensures var r := OnInput(s, chunk, clock);
            if s.inWindow < s.sendingWindow && chunk != [] then
              && |r.sent| == 1
              && r.sent[0].ptype == DATA && !r.sent[0].tr && r.sent[0].payload == chunk && r.sent[0].length == |chunk|
              && r.sent[0].seqnum == s.seqnum && r.sent[0].timestamp == clock
              && r.sent[0].window as int + s.inWindow == s.sendingWindow
              && r.state.window == s.window + r.sent && r.state.inWindow == s.inWindow + 1
              && r.state.seqnum == (if s.seqnum == 255 then 0 else s.seqnum + 1)
              && r.state.sendingWindow == s.sendingWindow && r.state.nb == |chunk|
            else
              r.sent == [] && r.state == s.(nb := if s.inWindow < s.sendingWindow then 0 else s.nb)
  {
  }

  /** The closing packet has the next number and no payload, and announces the sending window. */
  lemma ClosingLaw(s: SState, clock: u32)
    ensures var p := ClosingPacket(s, clock);
            && p.ptype == DATA && !p.tr && p.payload == [] && p.length == 0
            && p.seqnum == s.seqnum && p.timestamp == clock && p.window as int == s.sendingWindow
  {
  }

  // ---- what comes in

  /** p says that it awaits the number after a. */
  predicate Awaits(p: Pkt, a: u8) {
    !p.tr && p.seqnum == if a == 255 then 0 else a + 1
  }

  /** A NACK after a number in the window: that packet alone is stamped anew and sent, and the sending window halves. */
  lemma NackLaw(s: SState, p: Pkt, a: u8, clock: u32, k: nat)
    requires p.ptype == NACK && Awaits(p, a) && k < |s.window| && s.window[k].seqnum == a
    requires forall j :: 0 <= j < k ==> s.window[j].seqnum != a
    ensures var r := OnPacket(s, p, clock);
            && r.state == s.(window := s.window[k := s.window[k].(timestamp := clock)],
                             sendingWindow := r.state.sendingWindow)
            && r.sent == [s.window[k].(timestamp := clock)]
            && (s.sendingWindow == 1 ==> r.state.sendingWindow == 1)
            && (s.sendingWindow != 1 ==> 2 * r.state.sendingWindow <= s.sendingWindow <= 2 * r.state.sendingWindow + 1)
  {
    LocateFromOldest(NumbersOf(s.window), a);
    assert NumbersOf(s.window)[k] == a;
  }

  lemma UnknownNackLaw(s: SState, p: Pkt, a: u8, clock: u32)
    requires p.ptype == NACK && Awaits(p, a) && forall j :: 0 <= j < |s.window| ==> s.window[j].seqnum != a
    ensures OnPacket(s, p, clock) == SResult(s, [])
  {
    LocateFromOldest(NumbersOf(s.window), a);
  }

  /** An ACK after the number a, which covers the first k packets: these go, and what it announces holds. */
  lemma AckLaw(s: SState, p: Pkt, a: u8, k: nat, clock: u32)
    requires p.ptype == ACK && Awaits(p, a) && WindowInvariant(s) && k <= |s.window|
    requires forall j :: 0 <= j < k ==> HigherOrEqual(a, s.window[j].seqnum)
    requires k < |s.window| ==> !HigherOrEqual(a, s.window[k].seqnum)
    ensures OnPacket(s, p, clock)
            == SResult(SState(s.window[k..], s.seqnum, s.inWindow - k, p.window as int, s.nb), [])
  {
    hide HigherOrEqual, Wire, Wrapped;
    CoveredPrefix(s.window, a, k);
    WrappedInRange(s.inWindow - k);
  }

  lemma {:induction false} CoveredPrefix(window: seq<Pkt>, seqnum: u8, k: nat)
    requires k <= |window| && forall j :: 0 <= j < k ==> HigherOrEqual(seqnum, window[j].seqnum)
    requires k < |window| ==> !HigherOrEqual(seqnum, window[k].seqnum)
    ensures AckedCount(window, seqnum) == k
    decreases k
  {
    if k > 0 {
      CoveredPrefix(window[1..], seqnum, k - 1);
    }
  }

  /** All that a datagram can do besides: one that is refused, cut, or neither ACK nor NACK, is counted and ignored. */
  lemma IgnoredLaw(s: SState, received: Decoded, n: nat, clock: u32)
    requires received.Accepted? ==> received.pkt.tr || received.pkt.ptype == 0 || received.pkt.ptype == DATA
    ensures OnSocket(s, received, n, clock) == SResult(s.(nb := n), [])
  {
  }

  // ---- the scan

  /** More than 60 ms have passed since t; the sum is one of 32 bits, so a clock that has wrapped may be one later. */
  predicate MoreThan60Later(t: u32, clock: u32) {
    if t + 60 < 0x1_0000_0000 then clock - t > 60 else clock + 0x1_0000_0000 - t > 60
  }

  /**
   The scan takes a packet for too old exactly when its stamp is more than 60 ms old; and, because the sum wraps, when
   it was stamped in the last 60 ms before the clock wraps and the clock has not wrapped yet.
   */
  lemma AgeLaw(p: Pkt, clock: u32)
    ensures Expired(p, clock) <==> MoreThan60Later(p.timestamp, clock)
    ensures p.timestamp >= 0xFFFF_FFC4 && clock >= p.timestamp ==> Expired(p, clock)
  {
  }

  /** The scan goes over the head, and from the successor of its number modulo 31 up to 30. */
  predicate Revisited(head: u8, j: nat, number: u8) {
    j == 0 || (head + 1) % 31 <= number < 31
  }

  lemma VisitsLaw(head: u8, j: nat)
    requires j < 31
    ensures Visits(head, j) <==> Revisited(head, j, Wire(head + j))
  {
    RevisitedFromTarget(head, j, Wire(head + j));
    ScanTargetCases(head);
    WireOfOffset(head, j);
    hide Revisited, ScanTarget, Wire;
  }

  lemma RevisitedFromTarget(head: u8, j: nat, number: u8)
    ensures Revisited(head, j, number) <==> j == 0 || ScanTarget(head) <= number < 31
  {
  }

  lemma WireOfOffset(head: u8, j: nat)
    requires j < 256
    ensures Wire(head + j) == if head + j < 256 then head + j else head + j - 256
  {
  }

  /** The packet at offset j is gone over and its stamp is too old. */
  predicate IsResent(w: seq<Pkt>, j: nat, clock: u32)
    requires j < |w|
  {
    Revisited(w[0].seqnum, j, w[j].seqnum) && MoreThan60Later(w[j].timestamp, clock)
  }

  lemma RestampedLaw(s: SState, j: nat, clock: u32, stamps: seq<u32>)
    requires WindowInvariant(s) && j < |s.window| <= |stamps|
    ensures Visits(s.window[0].seqnum, j) && Expired(s.window[j], clock) <==> IsResent(s.window, j, clock)
  {
    hide Visits, Wire, Expired, Revisited;
    WindowIsConsecutive(s);
    ConsecutiveNumber(NumbersOf(s.window), j);
    VisitsLaw(s.window[0].seqnum, j);
    AgeLaw(s.window[j], clock);
  }

  /** The offsets of what the scan sends, in the order in which it does. */
  ghost predicate ScanOrder(at: seq<nat>, w: seq<Pkt>, n: nat, clock: u32)
    requires n <= |w|
  {
    && (forall i, j :: 0 <= i < j < |at| ==> at[i] < at[j])
    && (forall i :: 0 <= i < |at| ==> at[i] < n)
    && (forall j: nat :: j < n ==> (j in at <==> IsResent(w, j, clock)))
  }

  /**
   The scan in full: it sends the packets gone over whose stamp is more than 60 ms old, each once and in the order of
   the window, and these get the stamp of the time of sending; nothing else changes.
   */
  lemma ScanLaw(s: SState, clock: u32, stamps: seq<u32>) returns (at: seq<nat>)
    requires WindowInvariant(s) && |s.window| <= |stamps|
    ensures ScanOrder(at, s.window, |s.window|, clock)
    ensures var r := OnScan(s, clock, stamps);
            && |r.sent| == |at| && r.state == s.(window := r.state.window) && |r.state.window| == |s.window|
            && (forall i :: 0 <= i < |at| ==> r.sent[i] == s.window[at[i]].(timestamp := stamps[at[i]]))
            && (forall j :: 0 <= j < |s.window| ==>
                  r.state.window[j] == if j in at then s.window[j].(timestamp := stamps[j]) else s.window[j])
  {
    hide Visits, Expired, IsResent, WindowInvariant;
    at := ScanSendsInOrder(s, |s.window|, clock, stamps);
    forall j | 0 <= j < |s.window|
      ensures OnScan(s, clock, stamps).state.window[j]
              == if j in at then s.window[j].(timestamp := stamps[j]) else s.window[j]
    {
      RestampedLaw(s, j, clock, stamps);
    }
  }

  lemma {:induction false} ScanSendsInOrder(s: SState, n: nat, clock: u32, stamps: seq<u32>) returns (at: seq<nat>)
    requires WindowInvariant(s) && n <= |s.window| <= |stamps|
    ensures ScanOrder(at, s.window, n, clock)
    ensures var sent := ScanSends(s.window, n, clock, stamps);
            |sent| == |at| && forall i :: 0 <= i < |at| ==>
              at[i] < |s.window| && sent[i] == s.window[at[i]].(timestamp := stamps[at[i]])
    decreases n
  {
    hide Visits, Expired, IsResent, WindowInvariant;
    if n == 0 {
      at := [];
    } else {
      at := ScanSendsInOrder(s, n - 1, clock, stamps);
      RestampedLaw(s, n - 1, clock, stamps);
      if IsResent(s.window, n - 1, clock) {
        at := at + [n - 1];
      }
    }
  }

  /** A packet whose stamp is not that old stays out of what the scan sends. */
  lemma YoungIsNotResent(s: SState, k: nat, clock: u32, stamps: seq<u32>)
    requires WindowInvariant(s) && k < |s.window| <= |stamps| && !MoreThan60Later(s.window[k].timestamp, clock)
    ensures forall p :: p in OnScan(s, clock, stamps).sent ==> p.seqnum != s.window[k].seqnum
  {
    hide Revisited, Wire, OnScan;
    var at := ScanLaw(s, clock, stamps);
    forall i | 0 <= i < |at|
      ensures s.window[at[i]].seqnum != s.window[k].seqnum
    {
      assert at[i] in at && at[i] != k;
      WireInjective(s.seqnum - |s.window| + at[i], s.seqnum - |s.window| + k);
    }
  }

  /** What an iteration reads and sends, its own scan does not send again within 60 ms. */
  lemma JustSentIsNotResent(s: SState, e: Events)
    requires WindowInvariant(s) && Possible(e) && s.inWindow < s.sendingWindow
    requires e.input.Some? && e.input.value != [] && e.socket == None
    requires e.clocks.scan <= e.clocks.input + 60 < 0x1_0000_0000
    ensures var (r, leaves) := LoopBody(s, e);
            && !leaves && |r.sent| > 0 && r.sent[0].seqnum == s.seqnum && r.sent[0].timestamp == e.clocks.input
            && forall i :: 1 <= i < |r.sent| ==> r.sent[i].seqnum != s.seqnum
  {
    hide OnInput, OnScan, WindowInvariant;
    InputLaw(s, e.input.value, e.clocks.input);
    InputKeepsWindow(s, e.input.value, e.clocks.input);
    var t := OnInput(s, e.input.value, e.clocks.input).state;
    WindowFacts(s);
    WindowFacts(t);
    YoungIsNotResent(t, |s.window|, e.clocks.scan, e.stamps);
    var at := ScanLaw(t, e.clocks.scan, e.stamps);
  }
}
