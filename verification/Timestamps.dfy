/**
 What timestamps mean over whole runs: a packet in flight carries the time at which it was last sent, the scan sends it
 again when that is more than 60 ms ago, and what the receiver echoes is a time at which a packet was sent.
 */
module Timestamps {
  import opened Octets
  import opened Options
  import opened Packets
  import opened SeqNum
  import Q = SenderQueue
  import opened SenderSpec
  import opened SenderLaws
  import opened ReceiverSpec
  import opened ReceiverWindow
  import opened Protocol
  import opened Runs

  /** The step sends packet number n. */
  ghost predicate SendsNumber(s: Sys, a: Action, n: int)
    requires Offered(s, a)
  {
    exists p :: p in SenderStep(s, a).sent && Label(s, p) == n
  }

  /** The clock reading that the step takes when it sends packet number n. */
  function Reading(s: Sys, a: Action, n: int): u32 {
    match a
    case Input(_, clock) => clock
    case Scan(_, stamps) => if 0 <= n - Head(s) < |stamps| then stamps[n - Head(s)] else 0
    case Leave(clock) => clock
    case TakeAck(_, _, _, _, clock) => clock
    case _ => 0
  }

  /** Where the i-th packet in the window after the step comes from: it is sent in the step, or was there before. */
  ghost predicate SentOrThere(s: Sys, a: Action, i: nat)
    requires Offered(s, a) && i < |After(s, a).snd.window|
  {
    var t := After(s, a);
    var n := Head(t) + i;
    if SendsNumber(s, a, n) then t.snd.window[i].timestamp == Reading(s, a, n)
    else 0 <= n - Head(s) < |s.snd.window| && t.snd.window[i] == s.snd.window[n - Head(s)]
  }

  // ---- each step

  /** The step sends the packets at these offsets of the window, stamped with its readings. */
  ghost predicate SendsAt(s: Sys, a: Action, at: seq<nat>)
    requires Offered(s, a)
  {
    var sent := SenderStep(s, a).sent;
    && |sent| == |at|
    && forall i :: 0 <= i < |at| ==>
         && at[i] <= MAX_WINDOW_SIZE && sent[i].seqnum == Wire(Head(s) + at[i])
         && sent[i].timestamp == Reading(s, a, Head(s) + at[i])
  }

  lemma NumbersSent(s: Sys, a: Action, at: seq<nat>)
    requires Offered(s, a) && SendsAt(s, a, at)
    ensures forall n :: SendsNumber(s, a, n) <==> n - Head(s) in at
    ensures forall p :: p in SenderStep(s, a).sent ==>
              SendsNumber(s, a, Label(s, p)) && p.timestamp == Reading(s, a, Label(s, p))
  {
    hide Wire, Reading, Offered, SenderStep, Label, Head;
    var sent := SenderStep(s, a).sent;
    forall i | 0 <= i < |at|
      ensures Label(s, sent[i]) == Head(s) + at[i]
    {
      LabelOfWindow(s, at[i], sent[i]);
    }
    forall n
      ensures SendsNumber(s, a, n) <==> n - Head(s) in at
    {
      if n - Head(s) in at {
        var i :| 0 <= i < |at| && at[i] == n - Head(s);
        assert sent[i] in sent;
      }
    }
  }

  lemma InputSends(s: Sys, a: Action) returns (at: seq<nat>)
    requires Inv(s) && Enabled(s, a) && a.Input?
    ensures SendsAt(s, a, at)
    ensures at == if SenderStep(s, a).sent == [] then [] else [|s.snd.window|]
    ensures Head(After(s, a)) == Head(s) && After(s, a).snd.window == s.snd.window + SenderStep(s, a).sent
  {
    hide Encoding, Decode, DataFor, Wire, OnInput;
    InputLaw(s.snd, a.chunk, a.clock);
    InputStep(s, a.chunk, a.clock);
    at := if SenderStep(s, a).sent == [] then [] else [|s.snd.window|];
  }

  lemma ScanSendsAt(s: Sys, a: Action) returns (at: seq<nat>)
    requires Inv(s) && Enabled(s, a) && a.Scan?
    ensures SendsAt(s, a, at)
    ensures Head(After(s, a)) == Head(s) && |After(s, a).snd.window| == |s.snd.window| <= |a.stamps|
    ensures forall i :: 0 <= i < |s.snd.window| ==>
              && (i in at <==> IsResent(s.snd.window, i, a.clock))
              && After(s, a).snd.window[i]
                 == if i in at then s.snd.window[i].(timestamp := a.stamps[i]) else s.snd.window[i]
  {
    hide Encoding, Decode, DataFor, Wire, OnScan, IsResent;
    SenderOkMeansWindowInvariant(s);
    at := ScanLaw(s.snd, a.clock, a.stamps);
    WindowNumbers(s);
  }

  lemma WindowOf(s: Sys)
    requires Inv(s)
    ensures |s.snd.window| <= MAX_WINDOW_SIZE
    ensures forall i :: 0 <= i < |s.snd.window| ==> s.snd.window[i].seqnum == Wire(Head(s) + i)
  {
    WindowNumbers(s);
  }

  /** What a step may leave of the window: it has lost packets at the front, or one packet has been stamped anew. */
  ghost predicate DroppedOrRestamped(s: Sys, a: Action, at: seq<nat>)
    requires Offered(s, a) && a.TakeAck?
  {
    var w, t := s.snd.window, After(s, a);
    if at == [] then 0 <= Head(t) - Head(s) <= |w| && t.snd.window == w[Head(t) - Head(s)..]
    else
      && |at| == 1 && at[0] < |w| && Head(t) == Head(s)
      && t.snd.window == w[at[0] := w[at[0]].(timestamp := a.clock)]
  }

  lemma NackOnWindow(was: SState, p: Pkt, clock: u32) returns (at: seq<nat>)
    requires p.ptype == NACK && !p.tr
    ensures var r := OnPacket(was, p, clock);
            if at == [] then r == SResult(was, [])
            else
              && |at| == 1 && at[0] < |was.window| && r.sent == [was.window[at[0]].(timestamp := clock)]
              && r.state.window == was.window[at[0] := r.sent[0]]
  {
    hide OnPacket;
    var number := if p.seqnum == 0 then 255 else p.seqnum - 1;
    var k := Q.Find(Q.NumbersOf(was.window), 0, number);
    if k < |was.window| {
      NackLaw(was, p, number, clock, k);
      at := [k];
    } else {
      UnknownNackLaw(was, p, number, clock);
      at := [];
    }
  }

  lemma NackSends(s: Sys, a: Action) returns (at: seq<nat>)
    requires Inv(s) && Enabled(s, a) && a.TakeAck? && a.effect == Intact && a.msg.pkt.ptype == NACK
    ensures SendsAt(s, a, at) && DroppedOrRestamped(s, a, at)
  {
    hide *;
    TakenAsPacket(s, a);
    WindowOf(s);
    at := NackOnWindow(s.snd.(nb := |Arriving(a.effect, Encoding(a.msg.pkt))|), a.msg.pkt, a.clock);
    SendsAsListed(s, a, at);
  }

  lemma SendsAsListed(s: Sys, a: Action, at: seq<nat>)
    requires Offered(s, a) && a.TakeAck? && After(s, a).read == s.read
    requires |s.snd.window| <= MAX_WINDOW_SIZE
    requires forall i :: 0 <= i < |s.snd.window| ==> s.snd.window[i].seqnum == Wire(Head(s) + i)
    requires var r := SenderStep(s, a);
             && After(s, a).snd == r.state
             && if at == [] then r.state.window == s.snd.window && r.sent == []
                else
                  && |at| == 1 && at[0] < |s.snd.window| && r.sent == [s.snd.window[at[0]].(timestamp := a.clock)]
                  && r.state.window == s.snd.window[at[0] := r.sent[0]]
    ensures SendsAt(s, a, at) && DroppedOrRestamped(s, a, at)
  {
    hide Offered, SenderStep, After, Wire;
  }

  lemma DroppedFromFront(s: Sys, a: Action)
    requires Inv(s) && Enabled(s, a) && a.TakeAck? && a.effect == Intact && a.msg.pkt.ptype == ACK
    ensures SenderStep(s, a).sent == []
    ensures var w, t := s.snd.window, After(s, a);
            0 <= Head(t) - Head(s) <= |w| && t.snd.window == w[Head(t) - Head(s)..]
  {
    hide Encoding, Decode, DataFor, AckPacket, Wire, Previous;
    var m := a.msg;
    assert AckFor(m.n, m.pkt);
    AckArrival(m.pkt, a.effect, a.rest, a.previous);
  }

  lemma DamagedSendsNothing(s: Sys, a: Action)
    requires Inv(s) && Enabled(s, a) && a.TakeAck? && a.effect != Intact
    ensures SenderStep(s, a).sent == [] && After(s, a).snd.window == s.snd.window && Head(After(s, a)) == Head(s)
  {
    TakenAsPacket(s, a);
    hide Offered, Timely, SenderStep, After, Encoding, DataFor;
  }

  lemma NothingIsListed(s: Sys, a: Action)
    requires Offered(s, a) && a.TakeAck? && SenderStep(s, a).sent == []
    requires var w, t := s.snd.window, After(s, a);
             0 <= Head(t) - Head(s) <= |w| && t.snd.window == w[Head(t) - Head(s)..]
    ensures SendsAt(s, a, []) && DroppedOrRestamped(s, a, [])
  {
    hide Offered, SenderStep, After, Head;
  }

  /** A NACK makes the sender send at most one packet of its window again; an ACK drops packets from the front. */
  lemma TakeAckSends(s: Sys, a: Action) returns (at: seq<nat>)
    requires Inv(s) && Enabled(s, a) && a.TakeAck?
    ensures SendsAt(s, a, at) && DroppedOrRestamped(s, a, at)
  {
    hide *;
    TakenAsPacket(s, a);
    at := [];
    if a.effect == Intact && a.msg.pkt.ptype == NACK {
      at := NackSends(s, a);
    } else {
      if a.effect == Intact {
        DroppedFromFront(s, a);
      } else {
        DamagedSendsNothing(s, a);
      }
      NothingIsListed(s, a);
    }
  }

  lemma LeaveSends(s: Sys, a: Action) returns (at: seq<nat>)
    requires Inv(s) && Enabled(s, a) && a.Leave?
    ensures at == [0] && SendsAt(s, a, at)
    ensures After(s, a).snd.window == s.snd.window == []
  {
    hide Encoding, Decode, DataFor;
    at := [0];
  }

  /** Every packet sent carries the clock reading of the step that sends it. */
  lemma SentCarriesReading(s: Sys, a: Action, p: Pkt)
    requires Inv(s) && Enabled(s, a) && p in SenderStep(s, a).sent
    ensures SendsNumber(s, a, Label(s, p)) && p.timestamp == Reading(s, a, Label(s, p))
  {
    hide Offered, Timely, SenderStep, Inv, SendsAt, Reading, Label;
    var at := StepSends(s, a);
    NumbersSent(s, a, at);
  }

  lemma StepSends(s: Sys, a: Action) returns (at: seq<nat>)
    requires Inv(s) && Enabled(s, a)
    ensures SendsAt(s, a, at)
  {
    hide Timely, Inv, SendsAt, SenderStep;
    match a
    case Input(_, _) => at := InputSends(s, a);
    case Scan(_, _) => at := ScanSendsAt(s, a);
    case Leave(_) => at := LeaveSends(s, a);
    case TakeAck(_, _, _, _, _) => at := TakeAckSends(s, a);
    case _ => at := ReceiverSends(s, a);
  }

  lemma ReceiverSends(s: Sys, a: Action) returns (at: seq<nat>)
    requires Offered(s, a) && (a.TakeData? || a.Stop?)
    ensures at == [] && SendsAt(s, a, at) && After(s, a).snd == s.snd && After(s, a).read == s.read
  {
    hide Encoding, Decode, ReceiverStep, Applicable;
    at := [];
  }

  lemma WindowAfterAck(s: Sys, a: Action, i: nat)
    requires Inv(s) && Enabled(s, a) && a.TakeAck? && i < |After(s, a).snd.window|
    ensures SentOrThere(s, a, i)
  {
    hide Offered, Timely, Inv, SenderStep, SendsAt, After, SendsNumber, Head;
    var at := TakeAckSends(s, a);
    NumbersSent(s, a, at);
    var n := Head(After(s, a)) + i;
    if at == [] {
      assert !SendsNumber(s, a, n);
    } else {
      assert SendsNumber(s, a, n) <==> i == at[0];
    }
  }

  lemma WindowAfterScan(s: Sys, a: Action, i: nat)
    requires Inv(s) && Enabled(s, a) && a.Scan? && i < |After(s, a).snd.window|
    ensures SentOrThere(s, a, i)
  {
    hide Offered, Timely, Inv, SenderStep, SendsAt, After, SendsNumber, IsResent, Head;
    var at := ScanSendsAt(s, a);
    NumbersSent(s, a, at);
    assert SendsNumber(s, a, Head(s) + i) <==> i in at;
  }

  lemma WindowAfterInput(s: Sys, a: Action, i: nat)
    requires Inv(s) && Enabled(s, a) && a.Input? && i < |After(s, a).snd.window|
    ensures SentOrThere(s, a, i)
  {
    hide Offered, Timely, Inv, SenderStep, SendsAt, After, SendsNumber, Head;
    var at := InputSends(s, a);
    NumbersSent(s, a, at);
    assert SendsNumber(s, a, Head(s) + i) <==> i in at;
    InputIsOne(s, a);
  }

  lemma InputIsOne(s: Sys, a: Action)
    requires Offered(s, a) && a.Input?
    ensures var sent := SenderStep(s, a).sent; sent == [] || (|sent| == 1 && sent[0].timestamp == a.clock)
  {
    InputLaw(s.snd, a.chunk, a.clock);
    hide OnInput;
  }

  /** Each packet in the window after a step is sent in the step, with its reading, or was there before. */
  lemma WindowAfterStep(s: Sys, a: Action, i: nat)
    requires Inv(s) && Enabled(s, a) && i < |After(s, a).snd.window|
    ensures SentOrThere(s, a, i)
  {
    hide *;
    match a
    case Input(_, _) => WindowAfterInput(s, a, i);
    case Scan(_, _) => WindowAfterScan(s, a, i);
    case Leave(_) => var _ := LeaveSends(s, a);
    case TakeAck(_, _, _, _, _) => WindowAfterAck(s, a, i);
    case _ => WindowAfterReceiver(s, a, i);
  }

  lemma WindowAfterReceiver(s: Sys, a: Action, i: nat)
    requires Enabled(s, a) && (a.TakeData? || a.Stop?) && i < |After(s, a).snd.window|
    ensures SentOrThere(s, a, i)
  {
    hide Offered, SenderStep, SendsAt, After, SendsNumber;
    var at := ReceiverSends(s, a);
    NumbersSent(s, a, at);
  }

  // ---- over runs

  /** Of the first k steps, step j is the last to send packet number n. */
  ghost predicate LastToSend(states: seq<Sys>, actions: seq<Action>, k: nat, n: int, j: nat)
    requires IsRun(states, actions) && k <= |actions|
  {
    && j < k && Enabled(states[j], actions[j]) && SendsNumber(states[j], actions[j], n)
    && forall i :: j < i < k ==> Enabled(states[i], actions[i]) && !SendsNumber(states[i], actions[i], n)
  }

  /** In every run each packet in flight carries the clock reading of the last step that sent it. */
  lemma {:induction false} StampIsLastSending(states: seq<Sys>, actions: seq<Action>, k: nat, i: nat) returns (j: nat)
    requires IsRun(states, actions) && k <= |actions| && i < |states[k].snd.window|
    ensures LastToSend(states, actions, k, Head(states[k]) + i, j)
    ensures states[k].snd.window[i].timestamp == Reading(states[j], actions[j], Head(states[k]) + i)
    decreases k
  {
    hide Offered, Timely, After, Inv, SendsNumber, Reading;
    assert k > 0;
    var s, a, n := states[k - 1], actions[k - 1], Head(states[k]) + i;
    RunStep(states, actions, k - 1);
    ReachableIsGood(states, actions, k - 1);
    WindowAfterStep(s, a, i);
    if SendsNumber(s, a, n) {
      j := k - 1;
    } else {
      j := StampIsLastSending(states, actions, k - 1, n - Head(s));
    }
  }

  /**
   In every run the scan sends a packet of the window again exactly when it goes over it and more than 60 ms have passed
   since the packet was last sent, whatever sent it.
   */
  lemma ScanResendsOld(states: seq<Sys>, actions: seq<Action>, k: nat, i: nat) returns (j: nat)
    requires IsRun(states, actions) && k < |actions| && actions[k].Scan? && i < |states[k].snd.window|
    ensures LastToSend(states, actions, k, Head(states[k]) + i, j) && Enabled(states[k], actions[k])
    ensures var n := Head(states[k]) + i;
            SendsNumber(states[k], actions[k], n)
            <==> && Revisited(states[k].snd.window[0].seqnum, i, states[k].snd.window[i].seqnum)
                 && MoreThan60Later(Reading(states[j], actions[j], n), actions[k].clock)
  {
    hide Offered, Timely, After, Inv, SendsNumber, Reading, Revisited;
    RunStep(states, actions, k);
    ReachableIsGood(states, actions, k);
    j := StampIsLastSending(states, actions, k, i);
    var at := ScanSendsAt(states[k], actions[k]);
    NumbersSent(states[k], actions[k], at);
  }

  // ---- what the receiver echoes

  /** The timestamp is that of a DATA packet sent so far. */
  ghost predicate Stamped(data: set<Msg>, timestamp: u32) {
    exists m :: m in data && m.pkt.timestamp == timestamp
  }

  /** Every reply echoes the timestamp of a DATA packet, and so will those that packets in the window lead to. */
  ghost predicate EchoOk(s: Sys) {
    && (forall m :: m in s.acks ==> Stamped(s.data, m.pkt.timestamp))
    && forall j :: 0 <= j < MAX_WINDOW_SIZE && s.rcv.window[j].Some? ==>
         Stamped(s.data, s.rcv.window[j].value.timestamp)
  }

  /** What a whole packet leaves in the window and what it is answered with. */
  lemma WholeEcho(s: Sys, m: Msg)
    requires Inv(s) && EchoOk(s) && s.rcv.status == Running && m in s.data && DataHarmless(m.n, Got(s))
    ensures var r := OnData(s.rcv, m.pkt);
            && (forall p :: p in r.replies ==> Stamped(s.data, p.timestamp))
            && forall j :: 0 <= j < MAX_WINDOW_SIZE && r.state.window[j].Some? ==>
                 Stamped(s.data, r.state.window[j].value.timestamp)
  {
    hide OnData, DataFor, Wire, Stamped, RunEnd;
    NumberIsNear(s, m);
    assert Stamped(s.data, m.pkt.timestamp) by { IsStamped(s.data, m); }
    if m.n < Got(s) {
      PassedPacket(s, m);
    } else if m.n > Got(s) {
      EarlyPacket(s, m);
    } else if m.n < |s.read| {
      AwaitedPacket(s, m);
    } else {
      ClosingPacketArrives(s, m);
    }
  }

  lemma IsStamped(data: set<Msg>, m: Msg)
    requires m in data
    ensures Stamped(data, m.pkt.timestamp)
  {
  }

  lemma ReceiverEchoes(s: Sys, a: Action)
    requires Inv(s) && EchoOk(s) && Enabled(s, a)
    ensures var r := ReceiverStep(s, a);
            && (forall p :: p in r.replies ==> Stamped(s.data, p.timestamp))
            && forall j :: 0 <= j < MAX_WINDOW_SIZE && r.state.window[j].Some? ==>
                 Stamped(s.data, r.state.window[j].value.timestamp)
  {
    hide OnData, Encoding, Decode, WindowOk, DataFor, Stamped;
    if a.TakeData? {
      var m := a.msg;
      DataPacketFacts(s, m);
      DataArrival(m.pkt, a.effect, a.previous);
      EncodingIsNotEmpty(m.pkt);
      IsStamped(s.data, m);
      match a.effect
      case Intact => WholeEcho(s, m);
      case CutShort => CutPacket(s, m.pkt.(tr := true, payload := []));
      case Inverted(_) =>
    }
  }

  lemma StepKeepsEchoes(s: Sys, a: Action)
    requires Inv(s) && EchoOk(s) && Enabled(s, a)
    ensures EchoOk(After(s, a))
  {
    hide Offered, Timely, Inv, SenderStep, ReceiverStep, Stamped;
    ReceiverEchoes(s, a);
    var t := After(s, a);
    forall timestamp | Stamped(s.data, timestamp)
      ensures Stamped(t.data, timestamp)
    {
      MoreIsStamped(s.data, t.data, timestamp);
    }
  }

  lemma MoreIsStamped(data: set<Msg>, more: set<Msg>, timestamp: u32)
    requires data <= more && Stamped(data, timestamp)
    ensures Stamped(more, timestamp)
  {
  }

  lemma {:induction false} RunKeepsEchoes(states: seq<Sys>, actions: seq<Action>, k: nat)
    requires IsRun(states, actions) && k <= |actions|
    ensures EchoOk(states[k])
    decreases k
  {
    hide Offered, Timely, After, Inv;
    if k > 0 {
      RunStep(states, actions, k - 1);
      ReachableIsGood(states, actions, k - 1);
      RunKeepsEchoes(states, actions, k - 1);
      StepKeepsEchoes(states[k - 1], actions[k - 1]);
    }
  }

  lemma NewDataIsSent(s: Sys, a: Action, m: Msg)
    requires Offered(s, a) && m in After(s, a).data && m !in s.data
    ensures m.pkt in SenderStep(s, a).sent && m.n == Label(s, m.pkt)
  {
    hide Offered, SenderStep, ReceiverStep, Label;
  }

  /** Every DATA packet was sent, under its number, by a step that read its timestamp from the clock. */
  lemma {:induction false} DataCarriesReading(states: seq<Sys>, actions: seq<Action>, k: nat, m: Msg)
    returns (j: nat)
    requires IsRun(states, actions) && k <= |actions| && m in states[k].data
    ensures j < k && Enabled(states[j], actions[j]) && SendsNumber(states[j], actions[j], m.n)
    ensures m.pkt.timestamp == Reading(states[j], actions[j], m.n)
    decreases k
  {
    hide Offered, Timely, Inv, SendsNumber, Reading, After, Label;
    assert k > 0;
    var s, a := states[k - 1], actions[k - 1];
    RunStep(states, actions, k - 1);
    if m in s.data {
      j := DataCarriesReading(states, actions, k - 1, m);
    } else {
      ReachableIsGood(states, actions, k - 1);
      NewDataIsSent(s, a, m);
      SentCarriesReading(s, a, m.pkt);
      j := k - 1;
    }
  }

  /**
   In every run the timestamp of every ACK and NACK is a clock reading of the sender's, taken by a step that sent a DATA
   packet. So the time between that reading and the reply is one that a packet and its answer have taken.
   */
  lemma EchoIsSendingTime(states: seq<Sys>, actions: seq<Action>, k: nat, m: Msg) returns (j: nat, n: int)
    requires IsRun(states, actions) && k <= |actions| && m in states[k].acks
    ensures j < k && Enabled(states[j], actions[j]) && SendsNumber(states[j], actions[j], n)
    ensures m.pkt.timestamp == Reading(states[j], actions[j], n)
  {
    hide Reading, SendsNumber, Offered, Timely, After;
    RunKeepsEchoes(states, actions, k);
    var d :| d in states[k].data && d.pkt.timestamp == m.pkt.timestamp;
    n := d.n;
    j := DataCarriesReading(states, actions, k, d);
  }
}
