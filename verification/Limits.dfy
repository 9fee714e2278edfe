/**
 What is asked of the channel cannot be given up: for every distance at which an old packet does harm there is a run
 that ends with that packet on offer, and taking it breaks what the invariant promises.
 */
module Limits {
  import opened Octets
  import opened Options
  import opened Packets
  import opened SeqNum
  import opened SenderSpec
  import opened ReceiverSpec
  import opened ReceiverWindow
  import opened Protocol
  import opened Runs

  /** All that was read has been delivered and acknowledged, and both ends go on. */
  predicate Settled(s: Sys) {
    Inv(s) && s.rcv.status == Running && !s.left && s.snd.window == [] && WindowOpen(s)
  }

  lemma SettledMeansDelivered(s: Sys)
    requires Settled(s)
    ensures Head(s) == Got(s) == |s.read|
  {
  }

  /** The first packet and the first ACK, both still on offer. */
  predicate FirstOnOffer(s: Sys, data: Msg, ack: Msg) {
    && data in s.data && data.n == 0
    && ack in s.acks && ack.n == 1 && ack.pkt.ptype == ACK
  }

  /** A settled sender reads a packet. */
  lemma ReadOne(s: Sys, chunk: seq<Octet>, clock: u32)
    requires Settled(s) && 0 < |chunk| <= MAX_PAYLOAD_SIZE
    ensures var a := Input(chunk, clock);
            && Enabled(s, a)
            && (var t := After(s, a);
                && Inv(t) && t.rcv == s.rcv && !t.left && t.read == s.read + [chunk] && |t.snd.window| == 1
                && Head(t) == Head(s) && s.data <= t.data && t.acks == s.acks)
  {
    hide Encoding, Decode, DataFor, AckFor, WindowOk, DataPacket;
    StepKeepsInvariant(s, Input(chunk, clock));
    InputStep(s, chunk, clock);
  }

  /** A settled transfer of one packet more. */
  lemma OneMore(s: Sys, chunk: seq<Octet>) returns (states: seq<Sys>, actions: seq<Action>, data: Msg, ack: Msg)
    requires Settled(s) && 0 < |chunk| <= MAX_PAYLOAD_SIZE
    ensures IsPath(states, actions) && states[0] == s
    ensures var u := states[|actions|];
            && Settled(u) && |u.read| == |s.read| + 1 && s.data <= u.data && s.acks <= u.acks
            && data in u.data && data.n == |s.read| && ack in u.acks && ack.n == |s.read| + 1 && ack.pkt.ptype == ACK
  {
    hide Offered, Timely, After, ReceiverStep, Inv, AckPacket;
    SettledMeansDelivered(s);
    var read := Input(chunk, 0);
    ReadOne(s, chunk, 0);
    var r := After(s, read);
    HeadArrives(r, 0);
    var first := TakeData(Msg(Head(r), r.snd.window[0]), Intact, 0);
    var t, p := After(r, first), ReceiverStep(r, first).replies[0];
    DeliveredIsRead(t);
    ItsAckArrives(t, p, 0, [0, 0], 0);
    var second := TakeAck(Msg(Got(t), p), Intact, [0, 0], 0, 0);
    var u := After(t, second);
    HeadIsInFlight(r);
    PathOfOne(s, read);
    PathOfOne(r, first);
    PathOfOne(t, second);
    PathsJoin([s, r], [read], [r, t], [first]);
    assert [s, r] + [r, t][1..] == [s, r, t] && [read] + [first] == [read, first];
    PathsJoin([s, r, t], [read, first], [t, u], [second]);
    assert [s, r, t] + [t, u][1..] == [s, r, t, u] && [read, first] + [second] == [read, first, second];
    states, actions, data, ack := [s, r, t, u], [read, first, second], Msg(Head(r), r.snd.window[0]), Msg(Got(t), p);
  }

  lemma HeadIsInFlight(s: Sys)
    requires Inv(s) && |s.snd.window| > 0
    ensures Msg(Head(s), s.snd.window[0]) in s.data
  {
    assert Msg(Head(s) + 0, s.snd.window[0]) in s.data;
  }

  /** Any number of packets can be transferred one by one, with the first packet and the first ACK still under way. */
  lemma {:induction false} AnyNumberDelivered(n: nat)
    returns (states: seq<Sys>, actions: seq<Action>, data: Msg, ack: Msg)
    requires n >= 1
    ensures IsRun(states, actions)
    ensures var s := states[|actions|]; Settled(s) && Got(s) == |s.read| == n && FirstOnOffer(s, data, ack)
    decreases n
  {
    if n == 1 {
      StartIsGood();
      assert Settled(Start());
      hide Settled;
      states, actions, data, ack := OneMore(Start(), [0]);
      SettledMeansDelivered(states[|actions|]);
    } else {
      hide Settled;
      var before, steps;
      before, steps, data, ack := AnyNumberDelivered(n - 1);
      var more, further, _, _ := OneMore(before[|steps|], [0]);
      PathsJoin(before, steps, more, further);
      states, actions := before + more[1..], steps + further;
      SettledMeansDelivered(states[|actions|]);
    }
  }

  /**
   For every distance d at which old DATA does harm there is a run after which a packet d behind the awaited one is on
   offer, and its arrival breaks the invariant: at 224 or 225 behind, modulo 256, the window is overrun; at a multiple
   of 256 the old packet is written once more.
   */
  lemma StaleDataBreaksInvariant(d: nat) returns (states: seq<Sys>, actions: seq<Action>, arrival: Action)
    requires !DataHarmless(0, d)
    ensures IsRun(states, actions)
    ensures var s := states[|actions|];
            && arrival.TakeData? && arrival.effect == Intact && Offered(s, arrival) && arrival.msg.n == Got(s) - d
            && !Inv(After(s, arrival))
            && (d % 256 in {224, 225} ==> After(s, arrival).rcv.status == Overrun)
            && (d % 256 == 0 ==>
                  s.rcv.written < After(s, arrival).rcv.written && !(After(s, arrival).rcv.written <= s.read))
  {
    assert d >= 1;
    hide *;
    var m, ack;
    states, actions, m, ack := AnyNumberDelivered(d);
    RunLength(states, actions);
    arrival := TakeData(m, Intact, 0);
    OldDataBreaks(states[|actions|], m, ack);
  }

  lemma OldDataBreaks(s: Sys, m: Msg, ack: Msg)
    requires Settled(s) && FirstOnOffer(s, m, ack) && Got(s) == |s.read| && !DataHarmless(0, Got(s))
    ensures var d, arrival := Got(s), TakeData(m, Intact, 0);
            && Offered(s, arrival) && arrival.msg.n == Got(s) - d && !Inv(After(s, arrival))
            && (d % 256 in {224, 225} ==> After(s, arrival).rcv.status == Overrun)
            && (d % 256 == 0 ==>
                  s.rcv.written < After(s, arrival).rcv.written && !(After(s, arrival).rcv.written <= s.read))
  {
    OldDataArrives(s, m);
    WholeDataStep(s, m, 0);
    DataPacketFacts(s, m);
    IntactApplies(Encoding(m.pkt));
    hide OnData, Encoding, Decode, WindowOk, DataFor, AckFor, SenderStep, ReceiverStep;
    var arrival := TakeData(m, Intact, 0);
    OtherEndWaits(s, arrival);
    ReceiverOkDependsOn(s.(rcv := After(s, arrival).rcv), After(s, arrival));
  }

  lemma ReceiverOkDependsOn(s: Sys, t: Sys)
    requires s.rcv == t.rcv && s.read == t.read && s.left == t.left && s.snd == t.snd
    ensures ReceiverOk(s) <==> ReceiverOk(t)
  {
    WindowOkDependsOn(s, t);
    hide WindowOk;
  }

  /** What the receiver does with the first packet when all is delivered and its number is that of a new one. */
  lemma OldDataArrives(s: Sys, m: Msg)
    requires Settled(s) && Got(s) == |s.read| && m in s.data && m.n == 0 && !DataHarmless(0, Got(s))
    ensures var d, r := Got(s), OnData(s.rcv, m.pkt).state;
            && !ReceiverOk(s.(rcv := r))
            && (d % 256 in {224, 225} ==> r.status == Overrun)
            && (d % 256 == 0 ==> s.rcv.written < r.written && !(r.written <= s.read))
  {
    hide RunEnd, Payloads, Shifted;
    var d := Got(s);
    assert DataFor(s.read, 0, m.pkt) && WindowOk(s);
    OffsetOfFirst(d);
    if 226 <= d % 256 {
      var j := 256 - d % 256;
      assert s.rcv.window[j] == None;
      assert OnData(s.rcv, m.pkt).state.window[j] == Some(Keep(m.pkt));
    }
  }

  lemma OffsetOfFirst(d: nat)
    requires !DataHarmless(0, d)
    ensures d % 256 == 0 || 224 <= d % 256
    ensures Wire(0) == Wire(d) <==> d % 256 == 0
    ensures d % 256 != 0 ==> Ind(Wire(0), Wire(d)) == 256 - d % 256
  {
  }

  /**
   For every head h at which an ACK for the first packet does harm there is a run after which that ACK is on offer; its
   arrival drops a packet that has not been delivered, and the sender can then leave although the output is incomplete.
   */
  lemma StaleAckLosesData(h: nat)
    returns (states: seq<Sys>, actions: seq<Action>, arrival: Action, more: seq<Sys>, steps: seq<Action>)
    requires h >= 1 && HigherOrEqual(Wire(0), Wire(h))
    ensures IsRun(states, actions)
    ensures var s := states[|actions|];
            && arrival.TakeAck? && arrival.effect == Intact && Offered(s, arrival)
            && Head(s) == h && arrival.msg.n - 1 == 0
            && Head(After(s, arrival)) > Got(After(s, arrival))
            && IsPath(more, steps) && more[0] == After(s, arrival)
            && more[|steps|].left && more[|steps|].rcv.written < more[|steps|].read
  {
    var m, ack;
    states, actions, m, ack := AnyNumberDelivered(h);
    var s0 := states[|actions|];
    SettledMeansDelivered(s0);
    ReadOne(s0, [0], 0);
    var s := After(s0, Input([0], 0));
    states, actions := states + [s], actions + [Input([0], 0)];
    RunExtended(states[..|actions|], actions[..|actions| - 1], Input([0], 0));
    assert states[..|actions|] + [s] == states && actions[..|actions| - 1] + [Input([0], 0)] == actions;
    arrival := TakeAck(ack, Intact, [0, 0], 0, 0);
    var t, u, v := OldAckArrives(s, ack);
    PathOfOne(t, Input([], 0));
    PathOfOne(u, Action.Leave(0));
    PathsJoin([t, u], [Input([], 0)], [u, v], [Action.Leave(0)]);
    more, steps := [t, u] + [u, v][1..], [Input([], 0)] + [Action.Leave(0)];
  }

  /** The old ACK empties the window; an empty read and the exit follow. */
  lemma OldAckArrives(s: Sys, m: Msg) returns (t: Sys, u: Sys, v: Sys)
    requires Inv(s) && s.rcv.status == Running && !s.left && |s.snd.window| == 1 && Got(s) == Head(s)
    requires m in s.acks && m.n == 1 && m.pkt.ptype == ACK && HigherOrEqual(Wire(0), Wire(Head(s)))
    ensures var arrival := TakeAck(m, Intact, [0, 0], 0, 0);
            && Offered(s, arrival) && t == After(s, arrival) && Head(t) > Got(t)
    ensures Enabled(t, Input([], 0)) && u == After(t, Input([], 0))
    ensures Enabled(u, Action.Leave(0)) && v == After(u, Action.Leave(0))
    ensures v.left && v.rcv.written < v.read
  {
    hide Encoding, Decode, DataFor, WindowOk, Wire, HigherOrEqual, InFlightOk, DataOk;
    assert AckFor(m.n, m.pkt);
    AckArrival(m.pkt, Intact, [0, 0], 0);
    var arrival := TakeAck(m, Intact, [0, 0], 0, 0);
    WindowNumbers(s);
    assert s.snd.window[0].seqnum == Wire(Head(s) + 0);
    PreviousIsPredecessor(1);
    t := After(s, arrival);
    u := After(t, Input([], 0));
    v := After(u, Action.Leave(0));
  }
}
