/** The sending loop (`read_write_loop_sender.c`) over its ring of packets. */
module SenderLoop {
  import opened Octets
  import opened Options
  import opened Packets
  import opened PacketStruct
  import opened SeqNum
  import opened SenderQueue
  import opened SenderSpec
  import opened SenderLaws

  const ACK_READ_SIZE: nat := 12

  class Sender {
    const window: Queue
    const pktBuffer: array<Octet>
    var seqnum: u8
    var pktInWindow: u8
    var sendingWindowSize: u5
    var nb: nat

    ghost predicate Valid()
      reads this, window, window.window
    {
      pktBuffer.Length == MAX_PKT_LEN && window.Valid() && WindowInvariant(State())
    }

    ghost function State(): SState
      reads this, window
    {
      SState(window.contents, seqnum, pktInWindow, sendingWindowSize, nb)
    }

    constructor ()
      ensures Valid() && fresh(window) && fresh(window.window) && fresh(pktBuffer) && State() == InitialSender()
    {
      seqnum, pktInWindow, sendingWindowSize, nb := 0, 0, 1, 0;
      window := new Queue();
      pktBuffer := new Octet[MAX_PKT_LEN];
    }

    /** `build_pkt` on a new packet. */
    method BuildPkt(windowField: u5, number: u8, payload: seq<Octet>, timestamp: u32, memory: Memory)
      returns (built: Pkt)
      requires |payload| <= MAX_PAYLOAD_SIZE && memory.Valid()
      ensures built == DataPacket(windowField, number, payload, timestamp)
    {
      var p := new Packet(memory);
      var _ := p.SetType(DATA);
      var _ := p.SetTr(false);
      var _ := p.SetWindow(windowField);
      p.seqnum := number;
      var _ := p.SetLength(|payload|);
      p.timestamp := timestamp;
      var _ := p.SetPayload(payload);
      FiveBitsAreTheirValue(p.window, FiveBitsOf(windowField));
      built := p.Value();
    }

    /** Encodes a packet into the buffer and hands the datagram to the socket. */
    method Send(p: Pkt) returns (datagram: seq<Octet>)
      requires WellFormed(p) && pktBuffer.Length == MAX_PKT_LEN
      modifies pktBuffer
      ensures datagram == Encoding(p)
    {
      EncodedSize(p);
      var _, size := Encode(p, pktBuffer, MAX_PKT_LEN);
      datagram := pktBuffer[..size];
    }

    /** The block that reads the input. */
    method HandleInput(chunk: seq<Octet>, clock: u32, memory: Memory) returns (sent: seq<seq<Octet>>)
      requires Valid() && |chunk| <= MAX_PAYLOAD_SIZE && memory.Valid()
      modifies this, window, window.window, pktBuffer
      ensures Valid()
      ensures var r := OnInput(old(State()), chunk, clock); State() == r.state && sent == Datagrams(r.sent)
    {
      hide Encoding, DataPacket, Slot, Datagrams, Wrapped, Wire, Queue.Valid;
      WindowFacts(State());
      hide WindowInvariant;
      ghost var s := State();
      sent := [];
      if pktInWindow < sendingWindowSize {
        nb := |chunk|;
        if nb != 0 {
          var p := BuildPkt(sendingWindowSize - pktInWindow, seqnum, chunk, clock, memory);
          var datagram := Send(p);
          window.Add(p);
          sent := [datagram];
          pktInWindow := Wrapped(pktInWindow + 1);
          seqnum := Wire(seqnum + 1);
        }
      }
      InputKeepsWindow(s, chunk, clock);
    }

    /** The loop over the packets that an ACK covers. */
    method DequeueAcked(receiveSeqnum: u8) returns (isChanged: bool)
      requires Valid()
      modifies this`pktInWindow, window, window.window
      ensures Valid()
      ensures var k := AckedCount(old(window.contents), receiveSeqnum);
              && window.contents == old(window.contents)[k..]
              && pktInWindow == old(pktInWindow) - k
              && (isChanged <==> k > 0)
    {
      hide WindowInvariant, Slot, HigherOrEqual, Packets.Encoding, Queue.Valid, Wrapped;
      ghost var s := State();
      WindowFacts(s);
      isChanged := false;
      ghost var k := 0;
      var covered := window.IsHigherOrEqual(receiveSeqnum);
      while covered
        invariant window.Valid() && k <= |s.window| && window.contents == s.window[k..]
        invariant pktInWindow == |window.contents| && (isChanged <==> k > 0)
        invariant AckedCount(s.window, receiveSeqnum) == k + AckedCount(window.contents, receiveSeqnum)
        invariant covered <==> |window.contents| != 0 && HigherOrEqual(receiveSeqnum, window.contents[0].seqnum)
        decreases |window.contents|
      {
        window.Dequeue();
        WrappedInRange(pktInWindow - 1);
        pktInWindow := Wrapped(pktInWindow - 1);
        isChanged := true;
        k := k + 1;
        covered := window.IsHigherOrEqual(receiveSeqnum);
      }
      WrappedInRange(s.inWindow - k);
      AckKeepsWindow(s, receiveSeqnum, sendingWindowSize);
    }

    /** An ACK: the packets it covers are dropped, and the sending window is the one it announces. */
    method HandleAck(receiveSeqnum: u8, announced: u5)
      requires Valid()
      modifies this`pktInWindow, this`sendingWindowSize, window, window.window
      ensures Valid() && State() == OnAck(old(State()), receiveSeqnum, announced)
    {
      hide AckedCount, WindowInvariant, Wrapped, Queue.Valid;
      ghost var s := State();
      AckKeepsWindow(s, receiveSeqnum, announced);
      var _ := DequeueAcked(receiveSeqnum);
      WrappedInRange(pktInWindow);
      sendingWindowSize := announced;
    }

    /** A NACK: the packet it asks for, if in the window, is stamped anew and sent again, and the window halves. */
    method HandleNack(receiveSeqnum: u8, clock: u32) returns (sent: seq<seq<Octet>>)
      requires Valid()
      modifies this`sendingWindowSize, window, window.window, pktBuffer
      ensures Valid()
      ensures var r := OnNack(old(State()), receiveSeqnum, clock); State() == r.state && sent == Datagrams(r.sent)
      ensures seqnum == old(seqnum) && pktInWindow == old(pktInWindow) && nb == old(nb)
      ensures if receiveSeqnum in NumbersOf(old(window.contents)) then
                && (exists k :: 0 <= k < |old(window.contents)| && old(window.contents)[k].seqnum == receiveSeqnum
                                && IsRestamped(old(window.contents), k, clock, window.contents)
                                && sent == [Encoding(window.contents[k])])
                && sendingWindowSize == (if old(sendingWindowSize) == 1 then 1 else old(sendingWindowSize) / 2)
              else
                window.contents == old(window.contents) && sent == [] && sendingWindowSize == old(sendingWindowSize)
    {
      hide Encoding, Locate;
      LocateFromOldest(NumbersOf(window.contents), receiveSeqnum);
      ghost var s := State();
      ghost var k := Locate(NumbersOf(window.contents), StartOffset(window.ptrPop, -1), receiveSeqnum);
      sent := [];
      var slot, _ := window.Get(receiveSeqnum, -1);
      if slot != -1 {
        window.Restamp(slot, clock, k);
        NackKeepsWindow(s, receiveSeqnum, clock);
        var datagram := Send(window.window[slot].pkt);
        sent := [datagram];
        sendingWindowSize := if sendingWindowSize == 1 then 1 else sendingWindowSize / 2;
      }
    }

    /** The switch on the type of an accepted packet. */
    method HandlePacket(p: Pkt, clock: u32) returns (sent: seq<seq<Octet>>)
      requires Valid()
      modifies this`pktInWindow, this`sendingWindowSize, window, window.window, pktBuffer
      ensures Valid()
      ensures var r := OnPacket(old(State()), p, clock); State() == r.state && sent == Datagrams(r.sent)
    {
      hide Encoding, OnAck, OnNack, Queue.Valid, WindowInvariant;
      sent := [];
      if !p.tr {
        var receiveSeqnum := if p.seqnum != 0 then p.seqnum - 1 else 255;
        if p.ptype == ACK {
          HandleAck(receiveSeqnum, p.window as int);
        } else if p.ptype == NACK {
          sent := HandleNack(receiveSeqnum, clock);
        }
      }
    }

    /** A datagram on the socket: at most 12 octets are read over what the buffer held, and all 12 are decoded. */
    method HandleSocket(datagram: seq<Octet>, clock: u32, memory: Memory) returns (sent: seq<seq<Octet>>)
      requires Valid() && |datagram| <= ACK_READ_SIZE && memory.Valid()
      modifies this, window, window.window, pktBuffer
      ensures Valid()
      ensures var rest := old(pktBuffer[|datagram|..12]);
              var received := Packets.Decode(datagram + rest, memory.fields.length);
              var r := OnSocket(old(State()), received, |datagram|, clock);
              State() == r.state && sent == Datagrams(r.sent)
    {
      hide Packets.Decode, Encoding, OnPacket;
      Copy(pktBuffer, 0, datagram);
      nb := |datagram|;
      assert pktBuffer[..ACK_READ_SIZE] == datagram + old(pktBuffer[|datagram|..ACK_READ_SIZE]);
      var socketPkt := new Packet(memory);
      ghost var read := pktBuffer[..ACK_READ_SIZE];
      if Packets.Decode(read, memory.fields.length).Overflow? {
        OverflowNeedsLongInput(read, memory.fields.length);
      }
      var socketResp := socketPkt.Decode(pktBuffer, ACK_READ_SIZE);
      sent := [];
      if socketResp == PktOk {
        sent := HandlePacket(socketPkt.Value(), clock);
      }
    }

    /** The test of one packet that the scan has come to, and its retransmission. */
    method RetransmitIfOld(slot: int, ghost k: nat, clock: u32, stamp: u32) returns (sent: seq<seq<Octet>>)
      requires pktBuffer.Length == MAX_PKT_LEN && window.Valid()
      requires k < |window.contents| && slot == Slot(window.ptrPop, k) && WellFormed(window.contents[k])
      modifies window`contents, window.window, pktBuffer
      ensures window.Valid()
      ensures var p := old(window.contents)[k];
              && window.contents == old(window.contents)[k := AfterScan(p, clock, stamp)]
              && sent == Datagrams(RetransmissionOf(p, clock, stamp))
      ensures if MoreThan60Later(old(window.contents)[k].timestamp, clock) then
                && IsRestamped(old(window.contents), k, stamp, window.contents)
                && sent == [Encoding(window.contents[k])]
              else window.contents == old(window.contents) && sent == []
    {
      hide Encoding, Queue.Valid, Expired, Slot, MoreThan60Later;
      AgeLaw(window.contents[k], clock);
      sent := [];
      var tmpPkt := window.At(slot, k);
      if Expired(tmpPkt, clock) {
        window.Restamp(slot, stamp, k);
        tmpPkt := window.At(slot, k);
        var datagram := Send(tmpPkt);
        sent := [datagram];
      }
    }

    /** One step of the scan: n packets of w were done, and now k + 1 are. */
    method ScanOne(slot: int, ghost w: seq<Pkt>, ghost n: nat, ghost k: nat, clock: u32, stamps: seq<u32>)
      returns (sent: seq<seq<Octet>>)
      requires pktBuffer.Length == MAX_PKT_LEN && window.Valid()
      requires |stamps| == MAX_WINDOW_SIZE && n <= k < |w| <= MAX_WINDOW_SIZE
      requires slot == Slot(window.ptrPop, k) && WellFormed(w[k])
      requires window.contents == PartlyScanned(w, n, clock, stamps)
      requires Visits(w[0].seqnum, k) && forall j :: n <= j < k ==> !Visits(w[0].seqnum, j)
      modifies window`contents, window.window, pktBuffer
      ensures window.Valid() && window.contents == PartlyScanned(w, k + 1, clock, stamps)
      ensures Datagrams(ScanSends(w, k + 1, clock, stamps)) == Datagrams(ScanSends(w, n, clock, stamps)) + sent
    {
      hide Encoding, Visits, Queue.Valid, Restamped, Slot, StartOffset, PartlyScanned, ScanSends, Datagrams;
      NextStart(window.ptrPop, k);
      UnvisitedAreSkipped(w, n, k, clock, stamps);
      ScanAdvances(w, k, clock, stamps);
      assert window.contents[k] == w[k];
      sent := RetransmitIfOld(slot, k, clock, stamps[StartOffset(window.ptrPop, slot)]);
      DatagramsOfBoth(ScanSends(w, k, clock, stamps), RetransmissionOf(w[k], clock, stamps[k]));
    }

    /** The retransmission scan. stamps[j] is the clock read for the packet at offset j. */
    method Rescan(clock: u32, stamps: seq<u32>) returns (sent: seq<seq<Octet>>)
      requires Valid() && |stamps| == MAX_WINDOW_SIZE
      modifies window`contents, window.window, pktBuffer
      ensures Valid()
      ensures var r := OnScan(old(State()), clock, stamps); State() == r.state && sent == Datagrams(r.sent)
    {
      hide Encoding, Locate, Visits, WindowInvariant, Queue.Valid, Restamped, PartlyScanned, ScanSends, Datagrams, Slot,
           StartOffset, NextOffset, ScanTarget, Wire;
      ghost var s := State();
      ghost var w, numbers := s.window, NumbersOf(s.window);
      WindowIsConsecutive(s);
      WindowFacts(s);
      ScanKeepsWindow(s, clock, stamps);
      ScanEnds(w, clock, stamps);
      sent := [];
      var tmpPkt := window.Peek();
      if tmpPkt != Empty {
        NextStart(window.ptrPop, 0);
        var receiveSeqnum, first, firstTime := tmpPkt.pkt.seqnum, tmpPkt.pkt.seqnum, true;
        var slot, support := window.Get(receiveSeqnum, -1);
        ghost var done: nat, k: nat := 0, 0;
        HeadIsFoundFirst(numbers);
        while slot != -1
          invariant window.Valid() && window.ptrPop == old(window.ptrPop) && done <= |w|
          invariant window.contents == PartlyScanned(w, done, clock, stamps)
          invariant sent == Datagrams(ScanSends(w, done, clock, stamps))
          invariant slot != -1 ==>
                      && k < |w| && slot == Slot(window.ptrPop, k) && support == Slot(window.ptrPop, k + 1)
                      && receiveSeqnum == numbers[k] && Visits(first, k) && (firstTime ==> done == k == 0)
                      && (firstTime || k == 0 || done <= k)
          invariant slot == -1 ==> !firstTime
          invariant forall j :: done <= j < |w| && !firstTime && (slot == -1 || k == 0 || j < k) ==> !Visits(first, j)
          decreases |w| - done
        {
          OnlyHeadHasItsNumber(numbers, k);
          var found := window.At(slot, k);
          if first == found.seqnum && !firstTime { break; }
          var datagrams := ScanOne(slot, w, done, k, clock, stamps);
          sent := sent + datagrams;
          done := k + 1;
          receiveSeqnum := ScanTarget(receiveSeqnum);
          firstTime := false;
          NextVisit(numbers, k, receiveSeqnum);
          NextStart(window.ptrPop, k);
          k := Locate(numbers, NextOffset(k), receiveSeqnum);
          slot, support := window.Get(receiveSeqnum, support);
        }
        UnvisitedAreSkipped(w, done, |w|, clock, stamps);
      }
    }

    /** The exit test, with the empty packet that closes the receiver. */
    method Leave(clock: u32, memory: Memory) returns (left: bool, sent: seq<seq<Octet>>)
      requires Valid() && memory.Valid()
      modifies pktBuffer
      ensures Valid() && State() == old(State())
      ensures left == Leaves(State()) && sent == if left then Datagrams([ClosingPacket(State(), clock)]) else []
    {
      hide Encoding, DataPacket, WindowInvariant;
      left, sent := false, [];
      if nb == 0 && pktInWindow == 0 {
        var socketPkt := BuildPkt(sendingWindowSize, seqnum, [], clock, memory);
        var datagram := Send(socketPkt);
        left, sent := true, [datagram];
      }
    }

    /** The first two blocks of the loop, for what `poll` reports. */
    method TakeEvents(input: Option<seq<Octet>>, datagram: Option<seq<Octet>>, clocks: Clocks, stamps: seq<u32>,
                      memory: Memory)
      returns (sent: seq<seq<Octet>>, ghost e: Events)
      requires Valid() && memory.Valid() && |stamps| == MAX_WINDOW_SIZE
      requires input.Some? ==> |input.value| <= MAX_PAYLOAD_SIZE
      requires datagram.Some? ==> |datagram.value| <= ACK_READ_SIZE
      modifies this, window, window.window, pktBuffer
      ensures Valid() && Possible(e)
      ensures e.input == input && e.clocks == clocks && e.stamps == stamps && (e.socket.Some? <==> datagram.Some?)
      ensures datagram.Some? ==>
                exists rest :: |datagram.value + rest| == 12
                               && e.socket.value
                                  == (Packets.Decode(datagram.value + rest, memory.fields.length), |datagram.value|)
      ensures var i := AfterInput(old(State()), e);
              var d := AfterSocket(i.state, e);
              State() == d.state && sent == Datagrams(i.sent + d.sent)
    {
      hide Encoding, Packets.Decode, WindowInvariant, Queue.Valid, OnInput, OnSocket, Datagrams, Wire, Wrapped, Slot;
      sent := [];
      DatagramsOfNone();
      ghost var received := None;
      ghost var s := State();
      if input.Some? {
        sent := HandleInput(input.value, clocks.input, memory);
      }
      ghost var i := SResult(State(), if input.Some? then OnInput(s, input.value, clocks.input).sent else []);
      if datagram.Some? {
        ghost var rest := pktBuffer[|datagram.value|..ACK_READ_SIZE];
        received := Some((Packets.Decode(datagram.value + rest, memory.fields.length), |datagram.value|));
        assert |datagram.value + rest| == ACK_READ_SIZE;
        var resent := HandleSocket(datagram.value, clocks.socket, memory);
        sent := sent + resent;
      }
      e := Events(input, received, clocks, stamps);
      assert i == AfterInput(s, e);
      DatagramsOfBoth(i.sent, AfterSocket(i.state, e).sent);
    }

    /** One iteration of the loop, with the events that `poll` reports. */
    method Iterate(input: Option<seq<Octet>>, datagram: Option<seq<Octet>>, clocks: Clocks, stamps: seq<u32>,
                   memory: Memory)
      returns (left: bool, sent: seq<seq<Octet>>, ghost e: Events)
      requires Valid() && memory.Valid() && |stamps| == MAX_WINDOW_SIZE
      requires input.Some? ==> |input.value| <= MAX_PAYLOAD_SIZE
      requires datagram.Some? ==> |datagram.value| <= ACK_READ_SIZE
      modifies this, window, window.window, pktBuffer
      ensures Valid()
      ensures e.input == input && e.clocks == clocks && e.stamps == stamps && (e.socket.Some? <==> datagram.Some?)
      ensures datagram.Some? ==>
                exists rest :: |datagram.value + rest| == 12
                               && e.socket.value
                                  == (Packets.Decode(datagram.value + rest, memory.fields.length), |datagram.value|)
      ensures var (r, leaves) := LoopBody(old(State()), e);
              State() == r.state && sent == Datagrams(r.sent) && left == leaves
    {
      hide Encoding, Packets.Decode, WindowInvariant, Queue.Valid, AfterInput, AfterSocket, OnScan, Leaves,
           ClosingPacket, Datagrams, Possible;
      ghost var s := State();
      sent, e := TakeEvents(input, datagram, clocks, stamps, memory);
      ghost var i := AfterInput(s, e);
      ghost var d := AfterSocket(i.state, e);
      var rescanned := Rescan(clocks.scan, stamps);
      ghost var r := OnScan(d.state, clocks.scan, stamps);
      sent := sent + rescanned;
      DatagramsOfBoth(i.sent + d.sent, r.sent);
      var closing;
      left, closing := Leave(clocks.leave, memory);
      sent := sent + closing;
      DatagramsOfBoth(i.sent + d.sent + r.sent, [ClosingPacket(r.state, clocks.leave)]);
    }
  }

  /** Only the packet at offset k is another, and that only in its timestamp. */
  predicate IsRestamped(before: seq<Pkt>, k: nat, timestamp: u32, now: seq<Pkt>) {
    k < |before| && now == before[k := before[k].(timestamp := timestamp)]
  }

  lemma DatagramsOfNone()
    ensures Datagrams([]) == []
  {
  }

  lemma DatagramsOfBoth(a: seq<Pkt>, b: seq<Pkt>)
    ensures Datagrams(a + b) == Datagrams(a) + Datagrams(b)
  {
  }

  lemma EncodedSize(p: Pkt)
    requires WellFormed(p)
    ensures |Encoding(p)| <= MAX_PKT_LEN
  {
  }
}
