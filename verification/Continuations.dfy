/** How a transfer over a FIFO channel can go on from any state, whatever has been lost, and come to its end. */
module Continuations {
  import opened Octets
  import opened Packets
  import opened SeqNum
  import opened SenderSpec
  import opened ReceiverSpec
  import opened Protocol
  import opened Runs
  import opened Fifo

  /** The channel may lose all that is under way. */
  lemma {:induction false} AllMayBeLost(f: FifoSys) returns (states: seq<FifoSys>, actions: seq<FifoAction>)
    ensures IsFifoPath(states, actions) && states[0] == f && states[|actions|] == FifoSys(f.sys, [], [])
    decreases |f.forward| + |f.back|
  {
    if f.forward == [] && f.back == [] {
      states, actions := [f], [];
    } else {
      var a := if f.forward != [] then LoseData(0) else LoseAck(0);
      FifoPathOfOne(f, a);
      var more, steps := AllMayBeLost(FifoAfter(f, a));
      FifoPathsJoin([f, FifoAfter(f, a)], [a], more, steps);
      states, actions := [f, FifoAfter(f, a)] + more[1..], [a] + steps;
    }
  }

  /** After the scan the head is under way again, before anything else. */
  lemma ScanSendsHead(f: FifoSys, clock: u32, stamps: seq<u32>)
    requires FifoInv(f) && f.forward == f.back == [] && !f.sys.left
    requires 0 < |f.sys.snd.window| <= |stamps| && Expired(f.sys.snd.window[0], clock)
    ensures var scan := Do(Scan(clock, stamps));
            && FifoEnabled(f, scan)
            && (var g := FifoAfter(f, scan);
                && FifoInv(g) && Head(g.sys) == Head(f.sys) && g.back == [] && g.sys.rcv == f.sys.rcv && !g.sys.left
                && |g.forward| > 0 && |g.sys.snd.window| > 0 && g.sys.read == f.sys.read
                && g.sys.snd == OnScan(f.sys.snd, clock, stamps).state
                && g.forward[0] == Msg(Head(g.sys), g.sys.snd.window[0]))
  {
    hide Encoding, Decode, DataFor, ScanSends, ScannedWindow, Restamped, Wire, FifoInv, Inv;
    var s, scan := f.sys, Scan(clock, stamps);
    assert Inv(s) by {
      FifoInvMeansInv(f);
    }
    FifoStepKeepsInvariant(f, Do(scan));
    HeadIsSentFirst(s.snd.window, |s.snd.window|, clock, stamps);
    ScanStep(s, clock, stamps);
    var g := FifoAfter(f, Do(scan));
    WindowNumbers(g.sys);
    LabelOfWindow(s, 0, g.sys.snd.window[0]);
  }

  lemma FifoInvMeansInv(f: FifoSys)
    requires FifoInv(f)
    ensures Inv(f.sys) && f.sys.snd.inWindow == |f.sys.snd.window|
  {
  }

  /** Both ends go on, nothing more has been read, and what is in flight was so before. */
  predicate Follows(s: Sys, u: Sys) {
    && u.rcv.status == Running && !u.left && u.read == s.read && WindowOpen(u)
    && forall p :: p in u.snd.window ==> p in s.snd.window
  }

  /** The two arrivals of `Progress`, over the FIFO channel. */
  lemma HeadAdvances(g: FifoSys, previous: u16, memory: u16, rest: seq<Octet>, clock: u32)
    returns (states: seq<FifoSys>, actions: seq<FifoAction>)
    requires FifoInv(g) && g.sys.rcv.status == Running && !g.sys.left && g.back == [] && |rest| == 2
    requires |g.sys.snd.window| > 0 && |g.forward| > 0 && g.forward[0] == Msg(Head(g.sys), g.sys.snd.window[0])
    ensures IsFifoPath(states, actions) && states[0] == g && Head(states[|actions|].sys) > Head(g.sys)
    ensures FifoInv(states[|actions|]) && Follows(g.sys, states[|actions|].sys)
  {
    hide Encoding, Decode, After, ReceiverStep, SenderStep, Timely, AnswerAll, LabelAll, FifoInv, Inv;
    FifoInvMeansInv(g);
    Progress(g.sys, previous, memory, rest, clock);
    var first := TakeData(g.forward[0], Intact, previous);
    var t := FifoAfter(g, Do(first));
    ArrivalKeepsSender(g.sys, first);
    var second := TakeAck(Msg(Got(t.sys), ReceiverStep(g.sys, first).replies[0]), Intact, rest, memory, clock);
    FifoStepKeepsInvariant(g, Do(first));
    FifoStepKeepsInvariant(t, Do(second));
    FifoPathOfOne(g, Do(first));
    FifoPathOfOne(t, Do(second));
    FifoPathsJoin([g, t], [Do(first)], [t, FifoAfter(t, Do(second))], [Do(second)]);
    states, actions := [g, t] + [t, FifoAfter(t, Do(second))][1..], [Do(first), Do(second)];
    assert actions == [Do(first)] + [Do(second)];
  }

  lemma ArrivalKeepsSender(s: Sys, a: Action)
    requires Offered(s, a) && a.TakeData?
    ensures Got(After(s, a)) == |ReceiverStep(s, a).state.written|
  {
    hide ReceiverStep, SenderStep;
  }

  /**
   The transfer is never stuck: in every state over the FIFO channel in which packets are in flight and the receiver
   runs, even if everything under way is lost, a scan that finds the head too old can lead on to a state in which the
   head has moved.
   */
  lemma NeverStuck(f: FifoSys, clock: u32, stamps: seq<u32>, previous: u16, memory: u16, rest: seq<Octet>)
    returns (states: seq<FifoSys>, actions: seq<FifoAction>, lost: nat)
    requires FifoInv(f) && f.sys.rcv.status == Running && !f.sys.left && |rest| == 2
    requires 0 < |f.sys.snd.window| <= |stamps| && Expired(f.sys.snd.window[0], clock)
    ensures IsFifoPath(states, actions) && states[0] == f && Head(states[|actions|].sys) > Head(f.sys)
    ensures lost < |actions| && states[lost] == FifoSys(f.sys, [], []) && actions[lost] == Do(Scan(clock, stamps))
    ensures FifoInv(states[|actions|])
    ensures Follows(f.sys.(snd := OnScan(f.sys.snd, clock, stamps).state), states[|actions|].sys)
  {
    var s0, a0 := AllMayBeLost(f);
    var empty := FifoSys(f.sys, [], []);
    var scan := Do(Scan(clock, stamps));
    hide FifoEnabled, FifoAfter, Expired;
    ScanSendsHead(empty, clock, stamps);
    FifoPathOfOne(empty, scan);
    var s1, a1 := HeadAdvances(FifoAfter(empty, scan), previous, memory, rest, clock);
    FifoPathsJoin([empty, FifoAfter(empty, scan)], [scan], s1, a1);
    var s2, a2 := [empty, FifoAfter(empty, scan)] + s1[1..], [scan] + a1;
    FifoPathsJoin(s0, a0, s2, a2);
    states, actions, lost := s0 + s2[1..], a0 + a2, |a0|;
  }

  // ---- to the end

  /** Every packet in flight can grow too old. */
  predicate CanAllExpire(s: Sys) {
    forall i :: 0 <= i < |s.snd.window| ==> s.snd.window[i].timestamp != 0xFFFF_FFC3
  }

  predicate CanGoOn(s: Sys) {
    s.rcv.status == Running && !s.left && WindowOpen(s) && CanAllExpire(s)
  }

  function Zeros(): (stamps: seq<u32>)
    ensures |stamps| == MAX_WINDOW_SIZE && forall i :: 0 <= i < |stamps| ==> stamps[i] == 0
  {
    seq(MAX_WINDOW_SIZE, _ => 0)
  }

  lemma ScanKeepsExpirable(s: Sys, u: Sys, clock: u32)
    requires CanAllExpire(s) && |s.snd.window| <= MAX_WINDOW_SIZE
    requires Follows(s.(snd := OnScan(s.snd, clock, Zeros()).state), u)
    ensures CanGoOn(u)
  {
    var w := ScannedWindow(s.snd.window, clock, Zeros());
    assert forall i :: 0 <= i < |u.snd.window| ==> u.snd.window[i] in w;
  }

  /** An empty read, the exit and the arrival of the closing packet: the receiver closes on all that was read. */
  lemma EmptyWindowCloses(f: FifoSys) returns (states: seq<FifoSys>, actions: seq<FifoAction>)
    requires FifoInv(f) && f.forward == f.back == [] && CanGoOn(f.sys) && f.sys.snd.window == []
    ensures IsFifoPath(states, actions) && states[0] == f
    ensures var u := states[|actions|].sys; u.left && u.rcv.status == Closed && u.read == f.sys.read == u.rcv.written
  {
    hide *;
    var read, leave := Input([], 0), Action.Leave(0);
    FifoInvMeansInv(f);
    ReadsNothing(f);
    FifoStepKeepsInvariant(f, Do(read));
    var g := FifoAfter(f, Do(read));
    LeavesWithClosing(g);
    FifoStepKeepsInvariant(g, Do(leave));
    var h := FifoAfter(g, Do(leave));
    ClosingArrives(h);
    var close := TakeData(h.forward[0], Intact, 0);
    FifoPathOfOne(f, Do(read));
    FifoPathOfOne(g, Do(leave));
    FifoPathOfOne(h, Do(close));
    FifoPathsJoin([f, g], [Do(read)], [g, h], [Do(leave)]);
    FifoPathsJoin([f, g] + [g, h][1..], [Do(read)] + [Do(leave)], [h, FifoAfter(h, Do(close))], [Do(close)]);
    states := [f, g] + [g, h][1..] + [h, FifoAfter(h, Do(close))][1..];
    actions := [Do(read)] + [Do(leave)] + [Do(close)];
  }

  lemma ReadsNothing(f: FifoSys)
    requires CanGoOn(f.sys) && f.sys.snd.window == [] && f.sys.snd.inWindow == 0 && f.forward == f.back == []
    ensures var read := Do(Input([], 0));
            && FifoEnabled(f, read)
            && FifoAfter(f, read) == FifoSys(f.sys.(snd := f.sys.snd.(nb := 0)), [], [])
            && f.sys.rcv.status == Running && !f.sys.left
  {
    hide Encoding, Decode;
  }

  lemma LeavesWithClosing(g: FifoSys)
    requires FifoInv(g) && g.forward == g.back == [] && !g.sys.left && g.sys.snd.window == [] && g.sys.snd.nb == 0
    ensures var leave := Do(Action.Leave(0));
            && FifoEnabled(g, leave)
            && (var h := FifoAfter(g, leave);
                && h.sys.left && h.sys.read == g.sys.read && h.sys.rcv == g.sys.rcv
                && |h.forward| == 1 && h.forward[0].n == |g.sys.read| && h.back == [])
  {
    hide Encoding, Decode, DataFor, FiveBitsOf, NotOvertaken;
    LabelOfWindow(g.sys, 0, ClosingPacket(g.sys.snd, 0));
  }

  lemma ClosingArrives(h: FifoSys)
    requires FifoInv(h) && h.sys.left && h.sys.rcv.status == Running
    requires |h.forward| == 1 && h.forward[0].n == |h.sys.read|
    ensures var close := Do(TakeData(h.forward[0], Intact, 0));
            && FifoEnabled(h, close)
            && (var u := FifoAfter(h, close).sys;
                u.left && u.rcv.status == Closed && u.read == h.sys.read == u.rcv.written)
  {
    hide Encoding, Decode, DataFor, OnData, NotOvertaken, AckFor, WindowOk;
    var s, m := h.sys, h.forward[0];
    DataPacketFacts(s, m);
    WholeDataStep(s, m, 0);
    ClosingPacketArrives(s, m);
    OtherEndWaits(s, TakeData(m, Intact, 0));
    assert s.read[..|s.read|] == s.read;
  }

  /**
   From every state over the FIFO channel in which both ends go on, whatever is then lost, the transfer can come to its
   end: the sender has left, and the receiver has closed with all that was read as its output.
   */
  lemma {:induction false} CanFinish(f: FifoSys) returns (states: seq<FifoSys>, actions: seq<FifoAction>)
    requires FifoInv(f) && CanGoOn(f.sys)
    ensures IsFifoPath(states, actions) && states[0] == f
    ensures var u := states[|actions|].sys; u.left && u.rcv.status == Closed && u.read == f.sys.read == u.rcv.written
    decreases |f.sys.snd.window|
  {
    WindowFits(f);
    if f.sys.snd.window == [] {
      var s0, a0 := AllMayBeLost(f);
      var empty := FifoSys(f.sys, [], []);
      EmptyIsGood(f);
      var s1, a1 := EmptyWindowCloses(empty);
      hide *;
      FifoPathsJoin(s0, a0, s1, a1);
      states, actions := s0 + s1[1..], a0 + a1;
    } else {
      HeadCanExpire(f.sys);
      var s0, a0, _ := NeverStuck(f, 0xFFFF_FFFF, Zeros(), 0, 0, [0, 0]);
      var g := s0[|a0|];
      ScanKeepsExpirable(f.sys, g.sys, 0xFFFF_FFFF);
      WindowFits(g);
      var s1, a1 := CanFinish(g);
      hide *;
      FifoPathsJoin(s0, a0, s1, a1);
      states, actions := s0 + s1[1..], a0 + a1;
    }
  }

  lemma HeadCanExpire(s: Sys)
    requires CanAllExpire(s) && |s.snd.window| > 0
    ensures Expired(s.snd.window[0], 0xFFFF_FFFF)
  {
  }

  lemma WindowFits(f: FifoSys)
    requires FifoInv(f)
    ensures |f.sys.snd.window| <= MAX_WINDOW_SIZE && Head(f.sys) == |f.sys.read| - |f.sys.snd.window|
  {
    FifoInvMeansInv(f);
  }

  lemma EmptyIsGood(f: FifoSys)
    requires FifoInv(f)
    ensures FifoInv(FifoSys(f.sys, [], []))
  {
    hide Inv, NotOvertaken;
  }

  /** So it is in every run: until one of the ends stops, the transfer can still be completed. */
  lemma RunCanFinish(run: seq<FifoSys>, steps: seq<FifoAction>)
    returns (states: seq<FifoSys>, actions: seq<FifoAction>)
    requires IsFifoRun(run, steps)
    requires var s := run[|steps|].sys; s.rcv.status == Running && !s.left && CanAllExpire(s)
    ensures IsFifoRun(states, actions) && run <= states
    ensures var u := states[|actions|].sys;
            u.left && u.rcv.status == Closed && u.read == run[|steps|].sys.read == u.rcv.written
  {
    var f := run[|steps|];
    FifoReachableIsGood(run, steps, |steps|);
    var sys := FifoRefines(run, steps);
    WindowStaysOpen(sys, Projection(steps), |Projection(steps)|);
    var more, further := CanFinish(f);
    FifoPathsJoin(run, steps, more, further);
    states, actions := run + more[1..], steps + further;
  }
}
