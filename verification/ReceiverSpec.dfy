/** What the receiving loop does with each datagram (`read_write_loop_server.c`), on values. */
module ReceiverSpec {
  import opened Octets
  import opened Options
  import opened Packets
  import opened SeqNum
  import opened ReceiverWindow

  /** `Overrun`: the index from `in_window` lies beyond the window array, and what follows is undefined. */
  datatype Phase = Running | Stopped | Closed | Overrun

  /** `written` is the sequence of buffers handed to `write`. */
  datatype RState = RState(window: Window, waited: u8, receivePkt: nat, written: seq<seq<Octet>>, status: Phase)

  datatype RResult = RResult(state: RState, replies: seq<Pkt>)

  function InitialReceiver(): RState {
    RState(NoPackets(), 0, 0, [], Running)
  }

  /** `build_ack`. */
  function AckPacket(ptype: bv2, seqnum: u8, timestamp: u32): (p: Pkt)
    ensures ptype != DATA ==> WellFormed(p)
    ensures p.ptype == ptype && p.seqnum == seqnum && p.timestamp == timestamp && !p.tr
  {
    Pkt(ptype, false, 31, 0, seqnum, timestamp, [])
  }

  /** The end of the run of packets kept from slot j on; an empty packet ends it too. */
  function RunEnd(window: Slots, j: nat): (e: nat)
    requires j <= |window|
    ensures j <= e <= |window|
    ensures forall i :: j <= i < e ==> window[i].Some? && window[i].value.length > 0
    ensures e < |window| ==> window[e] == None || window[e].value.length == 0
    decreases |window| - j
  {
    if j < |window| && window[j].Some? && window[j].value.length > 0 then RunEnd(window, j + 1) else j
  }

  function Payloads(window: Slots, from: nat, to: nat): (s: seq<seq<Octet>>)
    requires from <= to <= |window|
    requires forall i :: from <= i < to ==> window[i].Some?
    ensures |s| == to - from
    ensures forall i :: 0 <= i < |s| ==> s[i] == window[from + i].value.payload
  {
    seq(to - from, i requires 0 <= i < to - from => window[from + i].value.payload)
  }

  lemma RunGrows(window: Slots, k: nat)
    requires 1 <= k < |window| && window[k].Some? && window[k].value.length > 0
    requires forall i :: 1 <= i < k ==> window[i].Some?
    ensures RunEnd(window, k) == RunEnd(window, k + 1)
    ensures Payloads(window, 1, k + 1) == Payloads(window, 1, k) + [window[k].value.payload]
  {
  }

  /** The timestamp of the last packet of a run of e, the first of which, with this timestamp, is not in the window. */
  function LastTimestamp(window: Slots, e: nat, timestamp: u32): u32
    requires 1 <= e <= |window| && (e > 1 ==> window[e - 1].Some?)
  {
    if e == 1 then timestamp else window[e - 1].value.timestamp
  }

  /** The awaited packet, not empty: it is written with the run behind it, and the window is re-based. */
  function OnAwaited(r: RState, p: Pkt): RResult {
    var e := RunEnd(r.window, 1);
    var written := r.written + [p.payload] + Payloads(r.window, 1, e);
    if e < MAX_WINDOW_SIZE && r.window[e].Some? then
      RResult(r.(written := written, status := Closed), [])
    else
      var waited := Wire(r.waited + e);
      var timestamp := LastTimestamp(r.window, e, p.timestamp);
      RResult(RState(Shifted(r.window, e), waited, e, written, Running), [AckPacket(ACK, waited, timestamp)])
  }

  /** Any other whole DATA packet: kept if in the window and new; the last ACK is repeated if there was one. */
  function OnUnawaited(r: RState, p: Pkt): RResult {
    var i := Ind(p.seqnum, r.waited);
    if InWindow(r.waited, p.seqnum) && i >= MAX_WINDOW_SIZE then RResult(r.(status := Overrun), [])
    else
      var window :=
        if InWindow(r.waited, p.seqnum) && r.window[i] == None then r.window[i := Some(Keep(p))] else r.window;
      RResult(r.(window := window), if r.receivePkt != 0 then [AckPacket(ACK, r.waited, p.timestamp)] else [])
  }

  function OnData(r: RState, p: Pkt): RResult {
    if p.tr then RResult(r, [AckPacket(NACK, r.waited, p.timestamp)])
    else if p.seqnum != r.waited then OnUnawaited(r, p)
    else if p.length == 0 then RResult(r.(status := Closed), [])
    else OnAwaited(r, p)
  }

  /** What `recv` gives is too short to overflow. */
  function OnDatagram(r: RState, received: Decoded): RResult {
    if received.Accepted? && received.pkt.ptype == DATA then OnData(r, received.pkt) else RResult(r, [])
  }

  /** An empty datagram stops the receiver, as a time-out does. */
  function OnReceive(r: RState, datagram: seq<Octet>, previous: u16): RResult
  {
    if |datagram| == 0 then RResult(r.(status := Stopped), []) else OnDatagram(r, Decode(datagram, previous))
  }

  /** The packet at slot j has the number j after the awaited one, whose own slot is empty. */
  predicate Labelled(window: Window, waited: u8) {
    && window[0] == None
    && forall j :: 0 <= j < MAX_WINDOW_SIZE && window[j].Some? ==> window[j].value.seqnum == Wire(waited + j)
  }

  lemma ShiftedIsLabelled(window: Window, waited: u8, e: nat)
    requires Labelled(window, waited) && 1 <= e <= MAX_WINDOW_SIZE && (e < MAX_WINDOW_SIZE ==> window[e] == None)
    ensures Labelled(Shifted(window, e), Wire(waited + e))
  {
    forall j | 0 <= j < MAX_WINDOW_SIZE && Shifted(window, e)[j].Some?
      ensures Shifted(window, e)[j].value.seqnum == Wire(Wire(waited + e) + j)
    {
      WireOfWire(waited + e, j);
    }
  }

  lemma StoredIsLabelled(window: Window, waited: u8, p: Pkt)
    requires Labelled(window, waited) && p.seqnum != waited && Ind(p.seqnum, waited) < MAX_WINDOW_SIZE
    ensures Labelled(window[Ind(p.seqnum, waited) := Some(Keep(p))], waited)
  {
  }

  /** Re-basing loses nothing and moves nothing elsewhere: the packets beyond the run keep their numbers. */
  lemma RebasedWindow(r: RState, p: Pkt)
    requires Labelled(r.window, r.waited) && OnAwaited(r, p).state.status == Running
    ensures var r', e := OnAwaited(r, p).state, RunEnd(r.window, 1);
            && Labelled(r'.window, r'.waited) && r'.waited == Wire(r.waited + e)
            && r'.written == r.written + [p.payload] + Payloads(r.window, 1, e)
            && (forall j :: e <= j < MAX_WINDOW_SIZE ==> r'.window[j - e] == r.window[j])
            && Count(r'.window) + (e - 1) == Count(r.window)
  {
    hide Count, AckPacket, RunEnd, Payloads, Labelled;
    var e := RunEnd(r.window, 1);
    assert e < MAX_WINDOW_SIZE ==> r.window[e] == None;
    assert r.window[0] == None by { FirstSlotIsFree(r.window, r.waited); }
    ShiftedIsLabelled(r.window, r.waited, e);
    CountOfRun(r.window, e);
  }

  lemma FirstSlotIsFree(window: Window, waited: u8)
    requires Labelled(window, waited)
    ensures window[0] == None
  {
  }

  lemma CountOfRun(window: Slots, e: nat)
    requires |window| == MAX_WINDOW_SIZE && window[0] == None && 1 <= e <= MAX_WINDOW_SIZE
    requires forall i :: 1 <= i < e ==> window[i].Some?
    ensures Count(Shifted(window, e)) + (e - 1) == Count(window)
  {
    var cleared := seq(MAX_WINDOW_SIZE, j requires 0 <= j < MAX_WINDOW_SIZE => if j < e then None else window[j]);
    ShiftedIgnoresBelow(window, cleared, e);
    CountOfShifted(cleared, e);
    CountOfSplit(window, e);
    CountOfSplit(cleared, e);
    CountIsZero(cleared[..e]);
    assert cleared[e..] == window[e..];
    CountIsFull(window[..e]);
  }

  lemma {:induction false} CountIsFull(s: Slots)
    requires |s| >= 1 && s[0] == None && forall i :: 1 <= i < |s| ==> s[i].Some?
    ensures Count(s) == |s| - 1
    decreases |s|
  {
    var n := |s| - 1;
    if n > 0 {
      CountIsFull(s[..n]);
    } else {
      assert Count(s[..0]) == 0;
    }
  }
}
