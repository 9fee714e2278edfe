/** The receiving loop (`read_write_loop_server.c`) over its window. */
module ReceiverLoop {
  import opened Octets
  import opened Options
  import opened Packets
  import opened PacketStruct
  import opened SeqNum
  import opened ReceiverWindow
  import opened ReceiverSpec

  const ACK_PKT_SIZE: nat := 10

  class Receiver {
    const window: WindowList
    const pkt: Packet
    const dataBuffer: array<Octet>
    const buffer: array<Octet>
    var waitedSeqnum: u8
    var receivePkt: nat
    /** What was handed to `write` on the output file, call by call. */
    var written: seq<seq<Octet>>
    var status: Phase

    ghost predicate Shape()
      reads this, window, window.window, pkt
    {
      && window.Valid() && window.NoneBelow() && window.window.Length == MAX_WINDOW_SIZE && pkt.Valid()
      && dataBuffer.Length == MAX_PKT_LEN && buffer.Length == ACK_PKT_SIZE && buffer != dataBuffer
    }

    ghost predicate Valid()
      reads this, window, window.window, pkt
    {
      Shape() && (status == Running ==> window.ptr == 0 && Labelled(window.window[..], waitedSeqnum))
    }

    ghost function State(): RState
      requires window.window.Length == MAX_WINDOW_SIZE
      reads this, window, window.window
    {
      RState(window.window[..], waitedSeqnum, receivePkt, written, status)
    }

    constructor (memory: Memory)
      requires memory.Valid()
      ensures Valid() && State() == InitialReceiver()
      ensures fresh(window) && fresh(window.window) && fresh(pkt) && fresh(dataBuffer) && fresh(buffer)
    {
      waitedSeqnum, receivePkt, written, status := 0, 0, [], Running;
      window := new WindowList(NoPackets());
      pkt := new Packet(memory);
      dataBuffer := new Octet[MAX_PKT_LEN];
      buffer := new Octet[ACK_PKT_SIZE];
    }

    /** `build_ack` on a new packet, encoded into the small buffer and handed to the socket. */
    method Reply(ptype: bv2, timestamp: u32, memory: Memory) returns (datagram: seq<Octet>)
      requires ptype == ACK || ptype == NACK
      requires buffer.Length == ACK_PKT_SIZE && memory.Valid()
      modifies buffer
      ensures datagram == Encoding(AckPacket(ptype, waitedSeqnum, timestamp))
    {
      var ackPkt := new Packet(memory);
      var _ := ackPkt.SetType(ptype);
      var _ := ackPkt.SetTr(false);
      var _ := ackPkt.SetWindow(MAX_WINDOW_SIZE);
      ackPkt.seqnum := waitedSeqnum;
      var _ := ackPkt.SetLength(0);
      ackPkt.timestamp := timestamp;
      FiveBitsAreTheirValue(ackPkt.window, 31);
      assert ackPkt.Value() == AckPacket(ptype, waitedSeqnum, timestamp);
      var _, size := Encode(ackPkt.Value(), buffer, ACK_PKT_SIZE);
      datagram := buffer[..size];
    }

    /** Of the window w at the awaited number base, the run up to slot `receivePkt` has been written. */
    ghost predicate Drained(w: Window, base: int, before: seq<seq<Octet>>, timestamp: u32, timestampAck: u32)
      requires window.window.Length == |w|
      reads this, window.window
    {
      && 1 <= receivePkt <= |w| && waitedSeqnum == Wire(base + receivePkt)
      && (forall j :: 0 <= j < |w| ==> window.window[j] == if j < receivePkt then None else w[j])
      && (forall j :: 1 <= j < receivePkt ==> w[j].Some?)
      && RunEnd(w, 1) == RunEnd(w, receivePkt)
      && written == before + Payloads(w, 1, receivePkt)
      && timestampAck == LastTimestamp(w, receivePkt, timestamp)
    }

    /** Writes the packet that follows on and frees its slot. */
    method Take(first: Stored, ghost w: Window, ghost base: int, ghost before: seq<seq<Octet>>,
                ghost timestamp: u32, ghost timestampAck: u32)
      requires Shape() && Drained(w, base, before, timestamp, timestampAck)
      requires window.ptr == receivePkt < MAX_WINDOW_SIZE && window.window[window.ptr] == Some(first)
      requires first.length > 0
      modifies this`waitedSeqnum, this`receivePkt, this`written, window`size, window.window
      ensures Shape() && Drained(w, base, before, timestamp, first.timestamp) && receivePkt == old(receivePkt) + 1
    {
      hide Count, Wire, RunEnd, Payloads;
      RunGrows(w, receivePkt);
      WireOfWire(base + receivePkt, 1);
      written := written + [first.payload];
      window.Pop();
      waitedSeqnum := Wire(waitedSeqnum + 1);
      receivePkt := receivePkt + 1;
    }

    /** The guard of that loop: the first packet kept, if it is the awaited one. */
    method FollowsOn(ghost w: Window, ghost base: int, ghost before: seq<seq<Octet>>, ghost timestamp: u32,
                     ghost timestampAck: u32)
      returns (first: Option<Stored>)
      requires Shape() && Drained(w, base, before, timestamp, timestampAck)
      requires NumberedFrom(w, base)
      modifies window`ptr
      ensures Shape() && Drained(w, base, before, timestamp, timestampAck)
      ensures first.Some? ==> window.ptr == receivePkt < MAX_WINDOW_SIZE && window.window[window.ptr] == first
      ensures first == None && receivePkt < MAX_WINDOW_SIZE ==> w[receivePkt] == None
    {
      hide Count, Wire, RunEnd, Payloads;
      CountIsZero(window.window[..]);
      first := window.Peek();
      if first == None || waitedSeqnum != first.value.seqnum {
        if first.Some? {
          WireInjective(base + receivePkt, base + window.ptr);
        }
        return None;
      }
      WireInjective(base + receivePkt, base + window.ptr);
    }

    lemma NothingDrainedYet(w: Window, base: int, before: seq<seq<Octet>>, timestamp: u32)
      requires Shape() && w == window.window[..] && w[0] == None
      requires receivePkt == 1 && waitedSeqnum == Wire(base + 1) && written == before
      ensures Drained(w, base, before, timestamp, timestamp)
    {
      hide Count, Wire, RunEnd;
    }

    /** What the drained run is, once the next packet does not follow on or is empty. */
    lemma RunIsDrained(w: Window, base: int, before: seq<seq<Octet>>, timestamp: u32, timestampAck: u32)
      requires Shape() && Drained(w, base, before, timestamp, timestampAck)
      requires receivePkt < MAX_WINDOW_SIZE && w[receivePkt].Some? ==>
                 window.window[receivePkt].Some? && window.window[receivePkt].value.length == 0
      ensures var e := RunEnd(w, 1);
              && receivePkt == e && waitedSeqnum == Wire(base + e) && written == before + Payloads(w, 1, e)
              && (e < MAX_WINDOW_SIZE ==> window.window[e] == w[e])
              && (forall j :: 0 <= j < MAX_WINDOW_SIZE ==> window.window[j] == if j < e then None else w[j])
              && timestampAck == LastTimestamp(w, e, timestamp)
    {
      hide Count, Wire;
    }

    /** The loop over the packets that follow on, which it takes out of the window; false when an empty one closes. */
    method Drain(timestamp: u32, ghost w: Window) returns (open: bool, timestampAck: u32)
      requires Shape() && window.ptr == 0 && receivePkt == 1 && w == window.window[..] && w[0] == None
      requires NumberedFrom(w, waitedSeqnum - 1)
      modifies this`waitedSeqnum, this`receivePkt, this`written, window, window.window
      ensures Shape()
      ensures var e := RunEnd(w, 1);
              && written == old(written) + Payloads(w, 1, e)
              && (open <==> e == MAX_WINDOW_SIZE || w[e] == None)
              && (open ==>
                    && receivePkt == e && waitedSeqnum == Wire(old(waitedSeqnum) - 1 + e)
                    && Cleared(w, e, window.window[..])
                    && timestampAck == LastTimestamp(w, e, timestamp))
    {
      hide Count, Wire, RunEnd, Payloads, WindowList.Valid, Receiver.Drained;
      ghost var base, before := waitedSeqnum - 1, written;
      timestampAck := timestamp;
      WireOfOctet(waitedSeqnum);
      NothingDrainedYet(w, base, before, timestamp);
      var first := FollowsOn(w, base, before, timestamp, timestampAck);
      while first.Some?
        invariant Shape() && Drained(w, base, before, timestamp, timestampAck)
        invariant first.Some? ==> window.ptr == receivePkt < MAX_WINDOW_SIZE && window.window[window.ptr] == first
        invariant first == None && receivePkt < MAX_WINDOW_SIZE ==> w[receivePkt] == None
        decreases MAX_WINDOW_SIZE - receivePkt
      {
        if first.value.length == 0 {
          RunIsDrained(w, base, before, timestamp, timestampAck);
          return false, timestampAck;
        }
        Take(first.value, w, base, before, timestamp, timestampAck);
        timestampAck := first.value.timestamp;
        first := FollowsOn(w, base, before, timestamp, timestampAck);
      }
      RunIsDrained(w, base, before, timestamp, timestampAck);
      return true, timestampAck;
    }

    /** Re-bases the window after a run of e packets, the first of which was not in it. */
    method Rebase(oldSeqnum: u8, ghost w: Window, ghost e: nat)
      requires Shape() && Labelled(w, oldSeqnum) && 1 <= e <= MAX_WINDOW_SIZE && (e < MAX_WINDOW_SIZE ==> w[e] == None)
      requires waitedSeqnum == Wire(oldSeqnum + e)
      requires Cleared(w, e, window.window[..])
      modifies window`ptr, window.window
      ensures Shape() && window.ptr == 0 && window.window[..] == Shifted(w, e)
      ensures Labelled(window.window[..], waitedSeqnum)
    {
      OffsetAfterRun(oldSeqnum, e);
      hide Count, Shifted, Labelled, Ind, Wire;
      ghost var cleared := window.window[..];
      window.Reset(waitedSeqnum, oldSeqnum);
      ShiftedIgnoresBelow(w, cleared, e);
      ShiftedIsLabelled(w, oldSeqnum, e);
    }

    /** Writes the awaited packet. */
    method WriteFirst()
      requires Shape() && 0 < pkt.length <= MAX_PAYLOAD_SIZE
      modifies this`waitedSeqnum, this`receivePkt, this`written
      ensures Shape() && written == old(written) + [pkt.payload[..pkt.length]]
      ensures waitedSeqnum == Wire(old(waitedSeqnum) + 1) && receivePkt == 1
    {
      hide Count, Wire;
      written := written + [pkt.payload[..pkt.length]];
      waitedSeqnum := Wire(waitedSeqnum + 1);
      receivePkt := 1;
    }

    /** Writes the awaited packet and the run behind it, and re-bases the window; false when the receiver is closed. */
    method WriteRun(ghost w: Window, ghost e: nat) returns (open: bool, timestampAck: u32)
      requires Shape() && window.ptr == 0 && Labelled(w, waitedSeqnum) && w == window.window[..] && e == RunEnd(w, 1)
      requires 0 < pkt.length <= MAX_PAYLOAD_SIZE
      modifies this`waitedSeqnum, this`receivePkt, this`written, window, window.window
      ensures Shape() && (open <==> e == MAX_WINDOW_SIZE || w[e] == None)
      ensures written == old(written) + [pkt.payload[..pkt.length]] + Payloads(w, 1, e)
      ensures open ==>
                && window.ptr == 0 && window.window[..] == Shifted(w, e) && Labelled(window.window[..], waitedSeqnum)
                && receivePkt == e && waitedSeqnum == Wire(old(waitedSeqnum) + e)
                && timestampAck == LastTimestamp(w, e, pkt.timestamp)
    {
      hide *;
      LabelsFromNext(w, waitedSeqnum);
      var oldSeqnum := waitedSeqnum;
      WriteFirst();
      open, timestampAck := Drain(pkt.timestamp, w);
      if open {
        NextAfterRun(oldSeqnum, e);
        Rebase(oldSeqnum, w, e);
      }
    }

    /** The awaited packet, not empty: everything but the ACK. */
    method Deliver() returns (timestampAck: u32)
      requires Valid() && status == Running && pkt.seqnum == waitedSeqnum && !pkt.tr && pkt.Readable() && pkt.length > 0
      modifies this, window, window.window
      ensures Valid()
      ensures var r := OnAwaited(old(State()), pkt.Value());
              && status == r.state.status && written == r.state.written
              && (status == Running ==>
                    State() == r.state && r.replies == [AckPacket(ACK, waitedSeqnum, timestampAck)])
              && (status != Running ==> r.replies == [])
    {
      hide RunEnd, Payloads, AckPacket, Shifted, Wire, Labelled, WindowList.Valid, OnAwaited, LastTimestamp;
      ghost var r, p, e := State(), pkt.Value(), RunEnd(window.window[..], 1);
      var open;
      open, timestampAck := WriteRun(window.window[..], e);
      RunOfAwaited(r, p, e, written);
      if open {
        assert window.window[..] == Shifted(r.window, e);
        assert waitedSeqnum == Wire(r.waited + e);
        assert receivePkt == e && status == Running;
        assert timestampAck == LastTimestamp(r.window, e, p.timestamp);
        assert State() == OnAwaited(r, p).state;
      } else {
        status := Closed;
      }
    }

    /** A whole DATA packet that is not the awaited one: everything but the ACK. */
    method KeepUnawaited()
      requires Valid() && status == Running && pkt.seqnum != waitedSeqnum && !pkt.tr && pkt.Readable()
      requires OnUnawaited(State(), pkt.Value()).state.status != Overrun
      modifies window, window.window
      ensures Valid()
      ensures var r := OnUnawaited(old(State()), pkt.Value());
              && State() == r.state
              && r.replies == if receivePkt != 0 then [AckPacket(ACK, waitedSeqnum, pkt.timestamp)] else []
    {
      hide Count, AckPacket;
      if InWindow(waitedSeqnum, pkt.seqnum) {
        StoredIsLabelled(window.window[..], waitedSeqnum, pkt.Value());
        var _ := window.Add(pkt.Value(), waitedSeqnum);
      }
    }

    /** The switch on a decoded DATA packet. */
    method HandleData(memory: Memory) returns (replies: seq<seq<Octet>>)
      requires Valid() && status == Running && pkt.ptype == DATA && pkt.Readable()
      requires OnData(State(), pkt.Value()).state.status != Overrun
      requires memory.Valid()
      modifies this, window, window.window, buffer
      ensures Valid()
      ensures var r := OnData(old(State()), pkt.Value());
              && status == r.state.status && written == r.state.written && replies == Datagrams(r.replies)
              && (status == Running ==> State() == r.state)
    {
      hide Count, AckPacket, Encoding, OnAwaited, OnUnawaited;
      replies := [];
      if pkt.tr {
        var datagram := Reply(NACK, pkt.timestamp, memory);
        replies := [datagram];
      } else if pkt.seqnum == waitedSeqnum {
        if pkt.length == 0 {
          status := Closed;
          return;
        }
        var timestampAck := Deliver();
        if status == Running {
          var datagram := Reply(ACK, timestampAck, memory);
          replies := [datagram];
        }
      } else {
        KeepUnawaited();
        if receivePkt != 0 {
          var datagram := Reply(ACK, pkt.timestamp, memory);
          replies := [datagram];
        }
      }
    }

    /** What `recv` gives: one datagram, cut to the size of the buffer; or the time-out of `poll`. */
    method HandleDatagram(datagram: seq<Octet>, memory: Memory) returns (replies: seq<seq<Octet>>)
      requires Valid() && status == Running && |datagram| <= MAX_PKT_LEN
      requires OnReceive(State(), datagram, pkt.length).state.status != Overrun
      requires memory.Valid()
      modifies this, pkt, dataBuffer, window, window.window, buffer
      ensures Valid()
      ensures var r := OnReceive(old(State()), datagram, old(pkt.length));
              && status == r.state.status && written == r.state.written && replies == Datagrams(r.replies)
              && (status == Running ==> State() == r.state)
      ensures datagram == [] ==> status == Stopped && replies == [] && written == old(written)
    {
      hide Count, Encoding, OnData, Packets.Decode;
      replies := [];
      if |datagram| == 0 {
        status := Stopped;
        return;
      }
      Copy(dataBuffer, 0, datagram);
      assert dataBuffer[..|datagram|] == datagram;
      if Packets.Decode(datagram, pkt.length).Overflow? {
        OverflowNeedsLongInput(datagram, pkt.length);
      }
      var decoded := pkt.Decode(dataBuffer, |datagram|);
      if decoded == PktOk && pkt.ptype == DATA {
        replies := HandleData(memory);
      }
    }

    method TimeOut()
      requires Valid()
      modifies this`status
      ensures Valid() && State() == old(State()).(status := Stopped)
    {
      status := Stopped;
    }
  }

  /** The packet at slot j has the number j after base. */
  predicate NumberedFrom(w: Window, base: int) {
    forall j :: 0 <= j < MAX_WINDOW_SIZE && w[j].Some? ==> w[j].value.seqnum == Wire(base + j)
  }

  /** The window w without its first e slots. */
  predicate Cleared(w: Window, e: nat, now: Window) {
    forall j :: 0 <= j < MAX_WINDOW_SIZE ==> now[j] == if j < e then None else w[j]
  }

  lemma LabelsFromNext(w: Window, waited: u8)
    requires Labelled(w, waited)
    ensures w[0] == None
    ensures NumberedFrom(w, Wire(waited + 1) - 1)
  {
    forall j | 0 <= j < MAX_WINDOW_SIZE && w[j].Some?
      ensures w[j].value.seqnum == Wire(Wire(waited + 1) - 1 + j)
    {
      WireOfWire(waited as int + 1, j - 1);
    }
  }

  /** What the awaited packet leads to, by whether an empty packet ends the run behind it. */
  lemma RunOfAwaited(r: RState, p: Pkt, e: nat, written: seq<seq<Octet>>)
    requires e == RunEnd(r.window, 1) && written == r.written + [p.payload] + Payloads(r.window, 1, e)
    ensures e < MAX_WINDOW_SIZE && r.window[e].Some? ==>
              OnAwaited(r, p) == RResult(r.(written := written, status := Closed), [])
    ensures e == MAX_WINDOW_SIZE || r.window[e] == None ==>
              OnAwaited(r, p)
              == (var waited := Wire(r.waited + e);
                  var timestamp := LastTimestamp(r.window, e, p.timestamp);
                  RResult(RState(Shifted(r.window, e), waited, e, written, Running),
                          [AckPacket(ACK, waited, timestamp)]))
  {
    hide RunEnd, Payloads, AckPacket, Shifted, Wire;
  }

  lemma NextAfterRun(waited: int, e: nat)
    requires 0 <= waited < 256
    ensures Wire(Wire(waited + 1) - 1 + e) == Wire(waited + e)
  {
    WireOfWire(waited + 1, e - 1);
  }

  lemma OffsetAfterRun(waited: u8, e: nat)
    requires 1 <= e <= MAX_WINDOW_SIZE
    ensures Ind(Wire(waited + e), waited) == e && Wire(waited + e) != waited
  {
    IndIsOffset(waited + e, waited);
  }
}
