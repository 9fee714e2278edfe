/** What each part of the sending loop does to the sender's state (`read_write_loop_sender.c`), on values. */
module SenderSpec {
  import opened Octets
  import opened Options
  import opened Packets
  import opened SeqNum
  import opened SenderQueue

  /** The retransmission age of the scan, TIMEOUT / 20 milliseconds. */
  const RETRANSMIT_AFTER: nat := 60

  datatype SState = SState(window: seq<Pkt>, seqnum: u8, inWindow: u8, sendingWindow: u5, nb: nat)

  datatype SResult = SResult(state: SState, sent: seq<Pkt>)

  function InitialSender(): SState {
    SState([], 0, 0, 1, 0)
  }

  /** `build_pkt`. */
  function DataPacket(window: u5, seqnum: u8, payload: seq<Octet>, timestamp: u32): (p: Pkt)
    requires |payload| <= MAX_PAYLOAD_SIZE
    ensures WellFormed(p) && p.seqnum == seqnum
  {
    Pkt(DATA, false, FiveBitsOf(window), |payload|, seqnum, timestamp, payload)
  }

  /** Input is ready and `read` gave chunk. */
  function OnInput(s: SState, chunk: seq<Octet>, clock: u32): SResult
    requires |chunk| <= MAX_PAYLOAD_SIZE
  {
    if s.inWindow >= s.sendingWindow then SResult(s, [])
    else if |chunk| == 0 then SResult(s.(nb := 0), [])
    else
      var p := DataPacket(s.sendingWindow - s.inWindow, s.seqnum, chunk, clock);
      SResult(SState(s.window + [p], Wire(s.seqnum + 1), Wrapped(s.inWindow + 1), s.sendingWindow, |chunk|), [p])
  }

  /** How many packets the loop over `is_higher_or_equal` dequeues. */
  function AckedCount(window: seq<Pkt>, seqnum: u8): (k: nat)
    ensures k <= |window|
  {
    if |window| == 0 || !HigherOrEqual(seqnum, window[0].seqnum) then 0
    else 1 + AckedCount(window[1..], seqnum)
  }

  function OnAck(s: SState, seqnum: u8, window: u5): SState {
    var k := AckedCount(s.window, seqnum);
    s.(window := s.window[k..], inWindow := Wrapped(s.inWindow - k), sendingWindow := window)
  }

  function OnNack(s: SState, seqnum: u8, clock: u32): SResult {
    var k := Locate(NumbersOf(s.window), 0, seqnum);
    if k == |s.window| then SResult(s, [])
    else
      var p := s.window[k].(timestamp := clock);
      var halved: u5 := if s.sendingWindow == 1 then 1 else s.sendingWindow / 2;
      SResult(s.(window := s.window[k := p], sendingWindow := halved), [p])
  }

  /** A packet has come in that the decoder accepts. */
  function OnPacket(s: SState, p: Pkt, clock: u32): SResult {
    if p.tr then SResult(s, [])
    else if p.ptype == ACK then SResult(OnAck(s, Previous(p.seqnum), p.window as int), [])
    else if p.ptype == NACK then OnNack(s, Previous(p.seqnum), clock)
    else SResult(s, [])
  }

  /** A datagram of n octets has come in on the socket. The 12 octets that are decoded are too few to overflow. */
  function OnSocket(s: SState, received: Decoded, n: nat, clock: u32): SResult {
    if received.Accepted? then OnPacket(s.(nb := n), received.pkt, clock) else SResult(s.(nb := n), [])
  }

  // ---- the retransmission scan

  /** The number that the scan looks for after the head: the successor modulo 31, not 256. */
  function ScanTarget(head: u8): u8 {
    (head + 1) % MAX_WINDOW_SIZE
  }

  /** Does the scan of a window of consecutive numbers from head come to the packet at offset j? */
  predicate Visits(head: u8, j: nat) {
    var start := Ind(ScanTarget(head), head);
    j == 0 || start <= j < start + MAX_WINDOW_SIZE - ScanTarget(head)
  }

  /** Is the packet too old at the time the scan started? The sum is taken in 32 bits. */
  predicate Expired(p: Pkt, clock: u32) {
    (p.timestamp + RETRANSMIT_AFTER) % 0x1_0000_0000 < clock
  }

  /** A packet can grow too old unless the sum of its time and the age is the last time there is. */
  lemma CanExpire(p: Pkt)
    ensures (exists clock :: Expired(p, clock)) <==> p.timestamp != 0xFFFF_FFC3
  {
    if p.timestamp != 0xFFFF_FFC3 {
      assert Expired(p, 0xFFFF_FFFF);
    }
  }

  function AfterScan(p: Pkt, clock: u32, stamp: u32): Pkt {
    if Expired(p, clock) then p.(timestamp := stamp) else p
  }

  function RetransmissionOf(p: Pkt, clock: u32, stamp: u32): seq<Pkt> {
    if Expired(p, clock) then [p.(timestamp := stamp)] else []
  }

  /** The packet at offset j after the scan; stamps[j] is the clock reading taken for it. */
  function Restamped(window: seq<Pkt>, j: nat, clock: u32, stamps: seq<u32>): Pkt
    requires j < |window| <= |stamps|
  {
    if Visits(window[0].seqnum, j) then AfterScan(window[j], clock, stamps[j]) else window[j]
  }

  function ScannedWindow(window: seq<Pkt>, clock: u32, stamps: seq<u32>): (w: seq<Pkt>)
    requires |window| <= |stamps|
    ensures |w| == |window|
    ensures forall j :: 0 <= j < |w| ==> w[j] == Restamped(window, j, clock, stamps)
  {
    seq(|window|, j requires 0 <= j < |window| => Restamped(window, j, clock, stamps))
  }

  /** What the scan sends for the first n offsets, in the order of the window. */
  function ScanSends(window: seq<Pkt>, n: nat, clock: u32, stamps: seq<u32>): (sent: seq<Pkt>)
    requires n <= |window| <= |stamps|
  {
    if n == 0 then []
    else ScanSends(window, n - 1, clock, stamps)
         + if Visits(window[0].seqnum, n - 1) then RetransmissionOf(window[n - 1], clock, stamps[n - 1]) else []
  }

  function OnScan(s: SState, clock: u32, stamps: seq<u32>): SResult
    requires |s.window| <= |stamps|
  {
    SResult(s.(window := ScannedWindow(s.window, clock, stamps)), ScanSends(s.window, |s.window|, clock, stamps))
  }

  /** The exit test, and the empty packet that closes the receiver. */
  predicate Leaves(s: SState) {
    s.nb == 0 && s.inWindow == 0
  }

  function ClosingPacket(s: SState, clock: u32): Pkt {
    DataPacket(s.sendingWindow, s.seqnum, [], clock)
  }

  /** What the loop keeps of the window: as many packets as counted, numbered consecutively up to the next number. */
  predicate WindowInvariant(s: SState) {
    && |s.window| == s.inWindow <= MAX_WINDOW_SIZE
    && forall i :: 0 <= i < |s.window| ==>
         && WellFormed(s.window[i]) && s.window[i].ptype == DATA && !s.window[i].tr && s.window[i].length > 0
         && s.window[i].seqnum == Wire(s.seqnum - |s.window| + i)
  }

  lemma WindowFacts(s: SState)
    requires WindowInvariant(s)
    ensures |s.window| == s.inWindow <= MAX_WINDOW_SIZE
    ensures forall i :: 0 <= i < |s.window| ==> WellFormed(s.window[i])
  {
  }

  lemma WindowIsConsecutive(s: SState)
    requires WindowInvariant(s)
    ensures Consecutive(NumbersOf(s.window))
  {
    forall i | 0 <= i < |s.window|
      ensures s.window[i].seqnum == Wire(s.window[0].seqnum + i)
    {
      WireOfWire(s.seqnum - |s.window|, i);
    }
  }

  lemma NewPacketIsData(s: SState, chunk: seq<Octet>, clock: u32)
    requires s.inWindow < s.sendingWindow && 0 < |chunk| <= MAX_PAYLOAD_SIZE
    ensures var r := OnInput(s, chunk, clock);
            && |r.sent| == 1 && r.state.window == s.window + r.sent
            && r.sent[0].ptype == DATA && !r.sent[0].tr && r.sent[0].length > 0 && WellFormed(r.sent[0])
  {
  }

  lemma InputKeepsWindow(s: SState, chunk: seq<Octet>, clock: u32)
    requires WindowInvariant(s) && |chunk| <= MAX_PAYLOAD_SIZE
    ensures WindowInvariant(OnInput(s, chunk, clock).state)
  {
    hide DataPacket, Wrapped, Wire;
    var t := OnInput(s, chunk, clock).state;
    if t.window != s.window {
      assert t.window[|s.window|].seqnum == s.seqnum;
      NewPacketIsData(s, chunk, clock);
      WrappedInRange(s.inWindow + 1);
      WireOfOctet(s.seqnum);
      forall i | 0 <= i < |t.window|
        ensures t.window[i].seqnum == Wire(t.seqnum - |t.window| + i)
      {
        WireOfWire(s.seqnum + 1, i - |t.window|);
        assert t.window[i] == if i < |s.window| then s.window[i] else t.window[|s.window|];
      }
    }
  }

  lemma AckKeepsWindow(s: SState, seqnum: u8, window: u5)
    requires WindowInvariant(s)
    ensures WindowInvariant(OnAck(s, seqnum, window))
  {
    hide Wrapped, Wire, HigherOrEqual;
    WrappedInRange(s.inWindow - AckedCount(s.window, seqnum));
  }

  lemma NackKeepsWindow(s: SState, seqnum: u8, clock: u32)
    requires WindowInvariant(s)
    ensures WindowInvariant(OnNack(s, seqnum, clock).state)
  {
  }

  lemma ScanKeepsWindow(s: SState, clock: u32, stamps: seq<u32>)
    requires WindowInvariant(s) && |s.window| <= |stamps|
    ensures WindowInvariant(OnScan(s, clock, stamps).state)
  {
  }

  // ---- properties of the scan

  /** `numbers` counts up from head modulo 256, as the sender's window does. */
  predicate Consecutive(numbers: seq<u8>) {
    forall i :: 0 <= i < |numbers| ==> numbers[i] == Wire(numbers[0] + i)
  }

  lemma OffsetLeadsBack(t: u8, head: u8)
    ensures Wire(head + Ind(t, head)) == t
  {
  }

  lemma FindInConsecutive(numbers: seq<u8>, from: nat, t: u8)
    requires Consecutive(numbers) && from <= |numbers| <= MAX_WINDOW_SIZE && |numbers| > 0
    ensures var d := Ind(t, numbers[0]); Find(numbers, from, t) == if from <= d < |numbers| then d else |numbers|
  {
    var d := Ind(t, numbers[0]);
    var k := Find(numbers, from, t);
    OffsetLeadsBack(t, numbers[0]);
    WireOfOctet(numbers[0]);
    if k < |numbers| {
      IndIsOffset(numbers[0] + k, numbers[0]);
    }
    hide Wire, Ind, Find;
    if from <= d < |numbers| {
      assert numbers[d] == t;
    }
  }

  /** Each visited offset is below 31, and the scan visits the whole window exactly when its numbers stay below 31. */
  lemma ScanCoverage(head: u8, size: nat)
    requires 1 <= size <= MAX_WINDOW_SIZE
    ensures (forall j :: 0 <= j < size ==> Visits(head, j)) <==> size == 1 || head + size <= MAX_WINDOW_SIZE
  {
    if size > 1 {
      assert Visits(head, 1) <==> head < MAX_WINDOW_SIZE - 1;
      assert Visits(head, size - 1) ==> Visits(head, 1) ==> head + size <= MAX_WINDOW_SIZE;
    }
  }

  lemma HeadIsFoundFirst(numbers: seq<u8>)
    requires |numbers| > 0
    ensures Locate(numbers, 0, numbers[0]) == 0 && Visits(numbers[0], 0)
  {
  }

  lemma OnlyHeadHasItsNumber(numbers: seq<u8>, k: nat)
    requires Consecutive(numbers) && k < |numbers| <= MAX_WINDOW_SIZE
    ensures numbers[k] == numbers[0] <==> k == 0
  {
  }

  lemma VisitedNumber(head: u8, k: nat)
    requires 0 < k < MAX_WINDOW_SIZE && Visits(head, k)
    ensures Wire(head + k) == ScanTarget(head) + k - Ind(ScanTarget(head), head) < MAX_WINDOW_SIZE
  {
  }

  /** Where the target after offset k lies: just past k, or nowhere ahead of k in a window. */
  lemma TargetAfter(head: u8, k: nat, target: u8)
    requires k < MAX_WINDOW_SIZE && Visits(head, k)
    requires target == ScanTarget(Wire(head + k))
    ensures k == 0 ==> target != head && Ind(target, head) == Ind(ScanTarget(head), head) > 0
    ensures k > 0 && Visits(head, k + 1) ==> target != head && Ind(target, head) == k + 1
    ensures k > 0 && !Visits(head, k + 1) ==>
              (head == target == 0 && k == MAX_WINDOW_SIZE - 1) || Ind(target, head) > MAX_WINDOW_SIZE
  {
    ScanTargetCases(head);
    ScanTargetCases(Wire(head + k));
    VisitsHead(head);
    if k > 0 {
      VisitedNumber(head, k);
    }
    hide Wire, ScanTarget;
  }

  lemma ScanTargetCases(n: u8)
    ensures ScanTarget(n) < MAX_WINDOW_SIZE && ScanTarget(n) != n
    ensures n < MAX_WINDOW_SIZE ==> ScanTarget(n) == if n == MAX_WINDOW_SIZE - 1 then 0 else n + 1
  {
  }

  lemma ConsecutiveNumber(numbers: seq<u8>, k: nat)
    requires Consecutive(numbers) && k < |numbers|
    ensures numbers[k] == Wire(numbers[0] + k)
  {
  }

  lemma NextOffsetCases(k: nat)
    requires k < MAX_WINDOW_SIZE
    ensures NextOffset(k) == if k + 1 < MAX_WINDOW_SIZE then k + 1 else 0
  {
  }

  lemma VisitsHead(head: u8)
    ensures Visits(head, 0)
    ensures Wire(head + 0) == head
  {
  }

  lemma VisitsAreConsecutive(head: u8, k: nat, j: nat)
    requires 0 < k < j && Visits(head, k) && Visits(head, j)
    ensures Visits(head, k + 1)
  {
  }

  /** After the packet at offset k, the search for the next target finds exactly the next visited offset, if any. */
  lemma NextVisit(numbers: seq<u8>, k: nat, target: u8)
    requires Consecutive(numbers) && k < |numbers| <= MAX_WINDOW_SIZE && Visits(numbers[0], k)
    requires target == ScanTarget(numbers[k])
    ensures var next := Locate(numbers, NextOffset(k), target);
            && (next == 0 || k < next)
            && (next == 0 ==> target == numbers[0])
            && (0 < next < |numbers| ==> Visits(numbers[0], next) && numbers[next] == target)
            && (forall j :: k < j < |numbers| && (next == 0 || j < next) ==> !Visits(numbers[0], j))
  {
    hide Wire, Ind, ScanTarget, NextOffset, Find, Consecutive;
    var head, from := numbers[0], NextOffset(k);
    NextOffsetCases(k);
    ConsecutiveNumber(numbers, k);
    ScanTargetCases(head);
    VisitsHead(head);
    TargetAfter(head, k, target);
    if from <= |numbers| {
      FindInConsecutive(numbers, from, target);
    }
    forall j | k < j < |numbers| && Visits(head, j)
      ensures k == 0 || Visits(head, k + 1)
    {
      if k > 0 && k + 1 < j {
        VisitsAreConsecutive(head, k, j);
      }
    }
  }

  /** What the scan sends begins with the head, if the head is too old. */
  lemma {:induction false} HeadIsSentFirst(window: seq<Pkt>, n: nat, clock: u32, stamps: seq<u32>)
    requires 1 <= n <= |window| <= |stamps| && Expired(window[0], clock)
    ensures |ScanSends(window, n, clock, stamps)| > 0
    ensures ScanSends(window, n, clock, stamps)[0] == ScannedWindow(window, clock, stamps)[0]
    decreases n
  {
    if n > 1 {
      HeadIsSentFirst(window, n - 1, clock, stamps);
    } else {
      assert ScanSends(window, 0, clock, stamps) == [];
    }
  }

  /** The window half way through the scan: the first n packets are done. */
  function PartlyScanned(window: seq<Pkt>, n: nat, clock: u32, stamps: seq<u32>): (w: seq<Pkt>)
    requires n <= |window| <= |stamps|
    ensures |w| == |window| && NumbersOf(w) == NumbersOf(window)
    ensures forall j :: 0 <= j < |w| ==> w[j] == if j < n then Restamped(window, j, clock, stamps) else window[j]
  {
    seq(|window|, j requires 0 <= j < |window| => if j < n then Restamped(window, j, clock, stamps) else window[j])
  }

  lemma {:induction false} UnvisitedAreSkipped(window: seq<Pkt>, n: nat, k: nat, clock: u32, stamps: seq<u32>)
    requires n <= k <= |window| <= |stamps|
    requires forall j :: n <= j < k ==> !Visits(window[0].seqnum, j)
    ensures PartlyScanned(window, k, clock, stamps) == PartlyScanned(window, n, clock, stamps)
    ensures ScanSends(window, k, clock, stamps) == ScanSends(window, n, clock, stamps)
    decreases k
  {
    if n < k {
      UnvisitedAreSkipped(window, n, k - 1, clock, stamps);
    }
  }

  /** One visited packet done: k of them are, and then k + 1. */
  lemma ScanAdvances(window: seq<Pkt>, k: nat, clock: u32, stamps: seq<u32>)
    requires k < |window| <= |stamps| && Visits(window[0].seqnum, k)
    ensures PartlyScanned(window, k, clock, stamps)[k] == window[k]
    ensures PartlyScanned(window, k + 1, clock, stamps)
            == PartlyScanned(window, k, clock, stamps)[k := AfterScan(window[k], clock, stamps[k])]
    ensures ScanSends(window, k + 1, clock, stamps)
            == ScanSends(window, k, clock, stamps) + RetransmissionOf(window[k], clock, stamps[k])
  {
  }

  lemma ScanEnds(window: seq<Pkt>, clock: u32, stamps: seq<u32>)
    requires |window| <= |stamps|
    ensures PartlyScanned(window, 0, clock, stamps) == window && ScanSends(window, 0, clock, stamps) == []
    ensures PartlyScanned(window, |window|, clock, stamps) == ScannedWindow(window, clock, stamps)
  {
  }

  // ---- the body of the loop

  /** The clock is read anew in each block of the loop. */
  datatype Clocks = Clocks(input: u32, socket: u32, scan: u32, leave: u32)

  /** What the environment gives one iteration; a datagram comes with its decoding and its size. */
  datatype Events =
    Events(input: Option<seq<Octet>>, socket: Option<(Decoded, nat)>, clocks: Clocks, stamps: seq<u32>)

  predicate Possible(e: Events) {
    && (e.input.Some? ==> |e.input.value| <= MAX_PAYLOAD_SIZE)
    && |e.stamps| == MAX_WINDOW_SIZE
  }

  function AfterInput(s: SState, e: Events): SResult
    requires Possible(e)
  {
    if e.input.Some? then OnInput(s, e.input.value, e.clocks.input) else SResult(s, [])
  }

  function AfterSocket(s: SState, e: Events): SResult {
    if e.socket.Some? then OnSocket(s, e.socket.value.0, e.socket.value.1, e.clocks.socket) else SResult(s, [])
  }

  lemma CountersDoNotMatter(s: SState, nb: nat, sendingWindow: u5)
    requires WindowInvariant(s)
    ensures WindowInvariant(s.(nb := nb)) && WindowInvariant(s.(sendingWindow := sendingWindow))
  {
  }

  lemma PacketKeepsWindow(s: SState, p: Pkt, clock: u32)
    requires WindowInvariant(s)
    ensures WindowInvariant(OnPacket(s, p, clock).state)
  {
    hide WindowInvariant, OnAck, OnNack;
    AckKeepsWindow(s, Previous(p.seqnum), p.window as int);
    NackKeepsWindow(s, Previous(p.seqnum), clock);
  }

  lemma InputAndSocketKeepWindow(s: SState, e: Events)
    requires WindowInvariant(s) && Possible(e)
    ensures WindowInvariant(AfterInput(s, e).state)
    ensures WindowInvariant(AfterSocket(s, e).state)
  {
    hide WindowInvariant, OnInput, OnPacket;
    if e.input.Some? {
      InputKeepsWindow(s, e.input.value, e.clocks.input);
    }
    if e.socket.Some? {
      CountersDoNotMatter(s, e.socket.value.1, 0);
      if e.socket.value.0.Accepted? {
        PacketKeepsWindow(s.(nb := e.socket.value.1), e.socket.value.0.pkt, e.clocks.socket);
      }
    }
  }

  /** One iteration: input, then socket, then scan; the flag says that the sender leaves, closing the receiver. */
  function LoopBody(s: SState, e: Events): (SResult, bool)
    requires WindowInvariant(s) && Possible(e)
  {
    InputAndSocketKeepWindow(s, e);
    var i := AfterInput(s, e);
    InputAndSocketKeepWindow(i.state, e);
    var d := AfterSocket(i.state, e);
    WindowFacts(d.state);
    var r := OnScan(d.state, e.clocks.scan, e.stamps);
    var sent := i.sent + d.sent + r.sent;
    if Leaves(r.state) then (SResult(r.state, sent + [ClosingPacket(r.state, e.clocks.leave)]), true)
    else (SResult(r.state, sent), false)
  }

  /** The scan sends the packets it restamps, as they then are in the window, and no others. */
  lemma {:induction false} ScanSendsWhatItRestamps(window: seq<Pkt>, n: nat, clock: u32, stamps: seq<u32>)
    requires n <= |window| <= |stamps|
    ensures forall p :: p in ScanSends(window, n, clock, stamps) ==> p in ScannedWindow(window, clock, stamps)[..n]
    ensures forall j :: 0 <= j < n && Visits(window[0].seqnum, j) && Expired(window[j], clock) ==>
              Restamped(window, j, clock, stamps) in ScanSends(window, n, clock, stamps)
    decreases n
  {
    if n > 0 {
      ScanSendsWhatItRestamps(window, n - 1, clock, stamps);
      var w := ScannedWindow(window, clock, stamps);
      assert w[..n] == w[..n - 1] + [w[n - 1]];
    }
  }
}
