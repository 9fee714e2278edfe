/** What the receiving loop does with each datagram, in terms of numbers, fields and slots alone. */
module ReceiverLaws {
  import opened Octets
  import opened Options
  import opened Packets
  import opened SeqNum
  import opened ReceiverWindow
  import opened ReceiverSpec

  /** The slots 1 to e - 1 hold packets that are not empty, and slot e does not. */
  predicate IsRunTo(window: Window, e: nat) {
    && 1 <= e <= 31
    && (forall i :: 1 <= i < e ==> window[i].Some? && window[i].value.length > 0)
    && (e < 31 ==> window[e] == None || window[e].value.length == 0)
  }

  lemma {:induction false} RunEndIs(window: Window, j: nat, e: nat)
    requires IsRunTo(window, e) && 1 <= j <= e
    ensures RunEnd(window, j) == e
    decreases e - j
  {
    if j < e {
      RunEndIs(window, j + 1, e);
    }
  }

  /**
   The awaited packet: it is written, and then those behind it up to the first gap. The window moves down by as many,
   the ACK is for the next number and echoes the timestamp of the last packet written; an empty packet at the end of the
   run closes the receiver instead, without an ACK.
   */
  lemma AwaitedLaw(r: RState, p: Pkt, e: nat)
    requires p.seqnum == r.waited && !p.tr && p.length > 0 && IsRunTo(r.window, e)
    ensures var q := OnData(r, p);
            && |q.state.written| == |r.written| + e && r.written <= q.state.written
            && q.state.written[|r.written|] == p.payload
            && (forall i :: 1 <= i < e ==> q.state.written[|r.written| + i] == r.window[i].value.payload)
            && if e < 31 && r.window[e].Some? then q.state.status == Closed && q.replies == []
               else
                 && q.state.status == Running && q.state.receivePkt == e
                 && (q.state.waited == r.waited + e || q.state.waited == r.waited + e - 256)
                 && (forall j :: 0 <= j < 31 ==> q.state.window[j] == if j + e < 31 then r.window[j + e] else None)
                 && q.replies == [Pkt(ACK, false, 31, 0, q.state.waited,
                                      if e == 1 then p.timestamp else r.window[e - 1].value.timestamp, [])]
  {
    hide OnData, Wire, Payloads, Shifted, IsRunTo;
    AwaitedIs(r, p, e);
    WireOfSum(r.waited, e);
    WrittenParts(r.written, p.payload, r.window, e);
  }

  lemma AwaitedIs(r: RState, p: Pkt, e: nat)
    requires p.seqnum == r.waited && !p.tr && p.length > 0 && IsRunTo(r.window, e)
    ensures 1 <= e <= 31 && forall i :: 1 <= i < e ==> r.window[i].Some?
    ensures var written, next := r.written + [p.payload] + Payloads(r.window, 1, e), Wire(r.waited + e);
            OnData(r, p)
            == if e < 31 && r.window[e].Some? then RResult(r.(written := written, status := Closed), [])
               else RResult(RState(Shifted(r.window, e), next, e, written, Running),
                            [Pkt(ACK, false, 31, 0, next,
                                 if e == 1 then p.timestamp else r.window[e - 1].value.timestamp, [])])
  {
    RunEndIs(r.window, 1, e);
    hide RunEnd, Wire, Payloads, Shifted;
  }

  lemma WrittenParts(written: seq<seq<Octet>>, first: seq<Octet>, window: Window, e: nat)
    requires IsRunTo(window, e)
    ensures var w := written + [first] + Payloads(window, 1, e);
            && |w| == |written| + e && written <= w && w[|written|] == first
            && forall i :: 1 <= i < e ==> w[|written| + i] == window[i].value.payload
  {
    var w := written + [first] + Payloads(window, 1, e);
    forall i | 1 <= i < e
      ensures w[|written| + i] == window[i].value.payload
    {
      assert w[|written| + i] == Payloads(window, 1, e)[i - 1];
    }
  }

  lemma WireOfSum(waited: u8, e: nat)
    requires e <= 31
    ensures Wire(waited + e) == if waited + e < 256 then waited + e else waited + e - 256
  {
  }

  /** A whole packet d ahead of the awaited one, modulo 256: below 31 it is kept unless its slot is taken. */
  lemma UnawaitedLaw(r: RState, p: Pkt, d: nat)
    requires !p.tr && 1 <= d < 256 && (p.seqnum == r.waited + d || p.seqnum == r.waited + d - 256)
    ensures var q := OnData(r, p);
            if 31 <= d <= 32 then q.state.status == Overrun
            else
              && q.state == r.(window := q.state.window)
              && (forall j :: 0 <= j < 31 ==>
                    q.state.window[j]
                    == if j == d && r.window[j] == None
                       then Some(Stored(p.payload, p.length, p.seqnum, p.timestamp)) else r.window[j])
              && q.replies == if r.receivePkt == 0 then [] else [Pkt(ACK, false, 31, 0, r.waited, p.timestamp, [])]
  {
  }

  /**
   A cut packet is answered with a NACK for the awaited number, and an empty one with that number closes the receiver;
   an empty datagram stops it, and one that is refused or not DATA changes nothing.
   */
  lemma OtherwiseLaw(r: RState, p: Pkt, datagram: seq<Octet>, previous: u16)
    ensures p.tr ==> OnData(r, p) == RResult(r, [Pkt(NACK, false, 31, 0, r.waited, p.timestamp, [])])
    ensures !p.tr && p.seqnum == r.waited && p.length == 0 ==>
              OnData(r, p) == RResult(r.(status := Closed), [])
    ensures datagram == [] ==> OnReceive(r, datagram, previous) == RResult(r.(status := Stopped), [])
    ensures datagram != [] ==>
              match Decode(datagram, previous)
              case Accepted(q) =>
                OnReceive(r, datagram, previous) == if q.ptype == DATA then OnData(r, q) else RResult(r, [])
              case _ => OnReceive(r, datagram, previous) == RResult(r, [])
  {
    hide Decode;
  }
}
