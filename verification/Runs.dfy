/** What holds at the end of every run over a channel of bounded staleness. */
module Runs {
  import opened Octets
  import opened Options
  import opened Packets
  import opened SeqNum
  import opened SenderSpec
  import opened SenderLaws
  import opened ReceiverSpec
  import opened ReceiverWindow
  import opened Protocol

  /** Steps from any state: each action could happen in its turn and led to the next state. */
  predicate IsPath(states: seq<Sys>, actions: seq<Action>) {
    && |states| == |actions| + 1
    && forall i {:trigger actions[i]} :: 0 <= i < |actions| ==>
         Enabled(states[i], actions[i]) && states[i + 1] == After(states[i], actions[i])
  }

  /** A run: steps from the start. */
  predicate IsRun(states: seq<Sys>, actions: seq<Action>) {
    IsPath(states, actions) && states[0] == Start()
  }

  lemma PathOfOne(s: Sys, a: Action)
    requires Enabled(s, a)
    ensures IsPath([s, After(s, a)], [a])
  {
    hide Offered, Timely, After;
  }

  lemma PathsJoin(states: seq<Sys>, actions: seq<Action>, more: seq<Sys>, steps: seq<Action>)
    requires IsPath(states, actions) && IsPath(more, steps) && states[|actions|] == more[0]
    ensures IsPath(states + more[1..], actions + steps)
    ensures (states + more[1..])[0] == states[0] && (states + more[1..])[|actions + steps|] == more[|steps|]
  {
    hide Offered, Timely, After;
    var s, a, n := states + more[1..], actions + steps, |actions|;
    forall i | 0 <= i < |a|
      ensures Enabled(s[i], a[i]) && s[i + 1] == After(s[i], a[i])
    {
      if i < n {
        assert a[i] == actions[i];
      } else {
        assert a[i] == steps[i - n] && s[i] == more[i - n] && s[i + 1] == more[i - n + 1];
      }
    }
  }

  lemma RunExtended(run: seq<Sys>, steps: seq<Action>, a: Action)
    requires IsRun(run, steps) && Enabled(run[|steps|], a)
    ensures var t := After(run[|steps|], a);
            IsRun(run + [t], steps + [a]) && (run + [t])[|steps + [a]|] == t
  {
    var s := run[|steps|];
    PathOfOne(s, a);
    PathsJoin(run, steps, [s, After(s, a)], [a]);
    hide Offered, Timely, After;
    assert [s, After(s, a)][1..] == [After(s, a)];
  }

  lemma RunLength(run: seq<Sys>, steps: seq<Action>)
    requires IsRun(run, steps)
    ensures |run| == |steps| + 1
  {
  }

  lemma RunStep(states: seq<Sys>, actions: seq<Action>, i: nat)
    requires IsRun(states, actions) && i < |actions|
    ensures Enabled(states[i], actions[i]) && states[i + 1] == After(states[i], actions[i])
  {
  }

  /** The invariant holds in every state of every run. */
  lemma {:induction false} ReachableIsGood(states: seq<Sys>, actions: seq<Action>, k: nat)
    requires IsRun(states, actions) && k <= |actions|
    ensures Inv(states[k])
    decreases k
  {
    hide Offered, Timely, After, Inv;
    if k == 0 {
      StartIsGood();
    } else {
      RunStep(states, actions, k - 1);
      ReachableIsGood(states, actions, k - 1);
      StepKeepsInvariant(states[k - 1], actions[k - 1]);
    }
  }

  function Flatten(chunks: seq<seq<Octet>>): seq<Octet> {
    if |chunks| == 0 then [] else Flatten(chunks[..|chunks| - 1]) + chunks[|chunks| - 1]
  }

  lemma {:induction false} FlattenPrefix(chunks: seq<seq<Octet>>, n: nat)
    requires n <= |chunks|
    ensures Flatten(chunks[..n]) <= Flatten(chunks)
    decreases |chunks|
  {
    if n == |chunks| {
      assert chunks[..n] == chunks;
    } else {
      var shorter := chunks[..|chunks| - 1];
      assert shorter[..n] == chunks[..n];
      FlattenPrefix(shorter, n);
    }
  }

  /**
   In every state of every run the receiver has written the first buffers that the sender read, each once and in order,
   and has never stored a packet outside its window.
   */
  lemma Safety(states: seq<Sys>, actions: seq<Action>, k: nat)
    requires IsRun(states, actions) && k <= |actions|
    ensures states[k].rcv.written <= states[k].read
    ensures Flatten(states[k].rcv.written) <= Flatten(states[k].read)
    ensures states[k].rcv.status != Overrun
  {
    ReachableIsGood(states, actions, k);
    FlattenPrefix(states[k].read, |states[k].rcv.written|);
  }

  /** When the sender leaves, or the closing packet stops the receiver, everything read has been written. */
  lemma Completeness(states: seq<Sys>, actions: seq<Action>, k: nat)
    requires IsRun(states, actions) && k <= |actions|
    ensures states[k].left || states[k].rcv.status == Closed ==> states[k].rcv.written == states[k].read
    ensures states[k].rcv.status == Closed ==> states[k].left
  {
    ReachableIsGood(states, actions, k);
    assert states[k].read[..|states[k].read|] == states[k].read;
  }

  /**
   The sender's window: at most 31 packets, as many as its counter says, numbered consecutively up to the next number;
   and what it has dropped has been delivered.
   */
  lemma WindowBounds(states: seq<Sys>, actions: seq<Action>, k: nat)
    requires IsRun(states, actions) && k <= |actions|
    ensures states[k].snd.inWindow == |states[k].snd.window| <= MAX_WINDOW_SIZE
    ensures Head(states[k]) <= Got(states[k]) <= |states[k].read|
    ensures WindowInvariant(states[k].snd)
  {
    ReachableIsGood(states, actions, k);
    SenderOkMeansWindowInvariant(states[k]);
  }

  lemma PrefixesAreOrdered<T>(a: seq<T>, b: seq<T>, c: seq<T>)
    requires a <= c && b <= c && |a| <= |b|
    ensures a <= b
  {
  }

  lemma StepGoesForward(s: Sys, a: Action)
    requires Inv(s) && Enabled(s, a)
    ensures var t := After(s, a);
            s.read <= t.read && s.rcv.written <= t.rcv.written && Head(s) <= Head(t)
  {
    hide Encoding, Decode, DataFor, SenderStep, ReceiverStep, AckFor, WindowOk;
    HeadMoves(s, a);
    StepKeepsInvariant(s, a);
    var t := After(s, a);
    PrefixesAreOrdered(s.rcv.written, t.rcv.written, t.read);
  }

  /** Nothing is taken back: the input, the output and the head of the window only move forward during a run. */
  lemma {:induction false} RunsGoForward(states: seq<Sys>, actions: seq<Action>, j: nat, k: nat)
    requires IsRun(states, actions) && j <= k <= |actions|
    ensures states[j].read <= states[k].read && states[j].rcv.written <= states[k].rcv.written
    ensures Head(states[j]) <= Head(states[k])
    decreases k
  {
    hide Offered, Timely, After, Inv;
    if j < k {
      RunStep(states, actions, k - 1);
      ReachableIsGood(states, actions, k - 1);
      RunsGoForward(states, actions, j, k - 1);
      StepGoesForward(states[k - 1], actions[k - 1]);
    }
  }

  // ---- progress

  /** The ACK that the receiver sends for a whole packet that it awaits or has passed covers that packet. */
  lemma ReplyCoversPacket(s: Sys, m: Msg)
    requires Inv(s) && s.rcv.status == Running && m in s.data
    requires m.n <= Got(s) && DataHarmless(m.n, Got(s)) && m.n < |s.read|
    ensures var r := OnData(s.rcv, m.pkt);
            && |r.replies| == 1 && r.state.status == Running
            && |r.state.written| > m.n
            && r.replies[0] == AckPacket(ACK, Wire(|r.state.written|), r.replies[0].timestamp)
  {
    hide OnData, AckPacket;
    if m.n < Got(s) {
      PassedPacket(s, m);
    } else {
      AwaitedPacket(s, m);
    }
  }

  lemma WholeDataStep(s: Sys, m: Msg, previous: u16)
    requires Inv(s) && s.rcv.status == Running && m in s.data
    ensures ReceiverStep(s, TakeData(m, Intact, previous)) == OnData(s.rcv, m.pkt)
  {
    hide OnData, Encoding, Decode, DataFor;
    DataPacketFacts(s, m);
    DataArrival(m.pkt, Intact, previous);
    EncodingIsNotEmpty(m.pkt);
  }

  /** What those two arrivals leave: the sender's window has lost what the receiver has got, and both go on. */
  predicate ProgressLeaves(s: Sys, t: Sys, u: Sys) {
    && Inv(u) && u.rcv.status == Running && !u.left && u.read == s.read
    && 0 <= Got(t) - Head(s) <= |s.snd.window| && u.snd.window == s.snd.window[Got(t) - Head(s)..]
    && u.snd.sendingWindow == MAX_WINDOW_SIZE
    && s.data <= u.data && t.acks <= u.acks && s.acks <= u.acks
  }

  /** The oldest packet in flight arrives whole: the receiver gets at least that, and its ACK says how much it has. */
  lemma HeadArrives(s: Sys, previous: u16)
    requires Inv(s) && s.rcv.status == Running && |s.snd.window| > 0 && !s.left
    ensures var first := TakeData(Msg(Head(s), s.snd.window[0]), Intact, previous);
            && Enabled(s, first) && |ReceiverStep(s, first).replies| == 1
            && (var t, p := After(s, first), ReceiverStep(s, first).replies[0];
                && Inv(t) && t.rcv.status == Running && t == s.(rcv := t.rcv, acks := t.acks) && Got(t) > Head(s)
                && s.acks <= t.acks && Msg(Got(t), p) in t.acks && p == AckPacket(ACK, Wire(Got(t)), p.timestamp))
  {
    hide Encoding, Decode, OnData, DataFor, AckPacket, AckFor;
    var m := Msg(Head(s), s.snd.window[0]);
    assert m in s.data;
    var first := TakeData(m, Intact, previous);
    WholeDataStep(s, m, previous);
    ReplyCoversPacket(s, m);
    StepKeepsInvariant(s, first);
    OtherEndWaits(s, first);
  }

  /** What the step takes, when it is whole, and when it is not. */
  lemma TakenAsPacket(s: Sys, a: Action)
    requires Inv(s) && Enabled(s, a) && a.TakeAck?
    ensures Offered(s, a) && Applicable(a.effect, Encoding(a.msg.pkt))
    ensures var m, was := a.msg, s.snd.(nb := |Arriving(a.effect, Encoding(a.msg.pkt))|);
            && (m.pkt.ptype == ACK || m.pkt.ptype == NACK) && !m.pkt.tr
            && SenderStep(s, a) == (if a.effect == Intact then OnPacket(was, m.pkt, a.clock) else SResult(was, []))
            && After(s, a).snd == SenderStep(s, a).state && After(s, a).read == s.read
  {
    hide Encoding, Decode, DataFor, OnPacket, Wire;
    assert AckFor(a.msg.n, a.msg.pkt);
    AckArrival(a.msg.pkt, a.effect, a.rest, a.previous);
    if a.effect != Intact {
      var datagram := Arriving(a.effect, Encoding(a.msg.pkt));
      IgnoredLaw(s.snd, Decode(datagram + a.rest, a.previous), |datagram|, a.clock);
    }
  }

  lemma AckIsTaken(t: Sys, p: Pkt, memory: u16, rest: seq<Octet>, clock: u32)
    requires Inv(t) && !t.left && Msg(Got(t), p) in t.acks && |rest| == 2 && Got(t) > Head(t)
    requires p == AckPacket(ACK, Wire(Got(t)), p.timestamp)
    ensures var second := TakeAck(Msg(Got(t), p), Intact, rest, memory, clock);
            && Enabled(t, second)
            && After(t, second) == t.(snd := OnAck(t.snd.(nb := 10), Previous(Wire(Got(t))), 31))
  {
    var second := TakeAck(Msg(Got(t), p), Intact, rest, memory, clock);
    SizeOfAck(p);
    hide Encoding, Inv, AckPacket, Wire, OnPacket, SenderStep, After, Previous, OnAck;
    TakenAsPacket(t, second);
    AckOnWindow(t.snd.(nb := 10), p, clock);
    NothingIsSent(t, second);
  }

  lemma SizeOfAck(p: Pkt)
    requires p == AckPacket(ACK, p.seqnum, p.timestamp)
    ensures |Encoding(p)| == 10 && p.ptype == ACK && p.window as int == 31 && !p.tr
  {
  }

  lemma AckOnWindow(s: SState, p: Pkt, clock: u32)
    requires p.ptype == ACK && !p.tr
    ensures OnPacket(s, p, clock) == SResult(OnAck(s, Previous(p.seqnum), p.window as int), [])
  {
    hide OnAck, Previous;
  }

  lemma NothingIsSent(s: Sys, a: Action)
    requires Offered(s, a) && SenderStep(s, a).sent == [] && a.TakeAck?
    ensures After(s, a) == s.(snd := SenderStep(s, a).state)
  {
    hide Offered, SenderStep;
  }

  /** Then that ACK arrives whole. */
  lemma ItsAckArrives(t: Sys, p: Pkt, memory: u16, rest: seq<Octet>, clock: u32)
    requires Inv(t) && t.rcv.status == Running && !t.left && Got(t) > Head(t) && |rest| == 2
    requires Msg(Got(t), p) in t.acks && p == AckPacket(ACK, Wire(Got(t)), p.timestamp)
    ensures var second := TakeAck(Msg(Got(t), p), Intact, rest, memory, clock);
            Enabled(t, second) && Head(After(t, second)) == Got(t) && ProgressLeaves(t, t, After(t, second))
  {
    hide Offered, Timely, After, Inv, AckPacket, Wire, Previous, AckedCount;
    AckIsTaken(t, p, memory, rest, clock);
    StepKeepsInvariant(t, TakeAck(Msg(Got(t), p), Intact, rest, memory, clock));
    AckMovesHead(t);
  }

  lemma AckMovesHead(t: Sys)
    requires Inv(t) && !t.left && Got(t) > Head(t)
    ensures var u := t.(snd := OnAck(t.snd.(nb := 10), Previous(Wire(Got(t))), 31));
            && Head(u) == Got(t) && 0 <= Got(t) - Head(t) <= |t.snd.window|
            && u.snd.window == t.snd.window[Got(t) - Head(t)..]
  {
    hide DataFor, Wire, AckedCount, Previous, WindowOk, AckFor;
    AckStep(t, Got(t), 10, 31);
  }

  /**
   If the oldest packet in flight arrives whole, and then the ACK that the receiver answers, the window moves on to
   what the receiver awaits, whether it was waiting for that packet or had passed it.
   */
  lemma Progress(s: Sys, previous: u16, memory: u16, rest: seq<Octet>, clock: u32)
    requires Inv(s) && s.rcv.status == Running && |s.snd.window| > 0 && !s.left
    requires |rest| == 2
    ensures var first := TakeData(Msg(Head(s), s.snd.window[0]), Intact, previous);
            && Enabled(s, first) && Inv(After(s, first)) && |ReceiverStep(s, first).replies| == 1
            && (var t := After(s, first);
                var second := TakeAck(Msg(Got(t), ReceiverStep(s, first).replies[0]), Intact, rest, memory, clock);
                && Enabled(t, second) && Head(After(t, second)) == Got(t) > Head(s)
                && ProgressLeaves(s, t, After(t, second)))
  {
    hide Offered, Timely, After, ReceiverStep, Inv;
    HeadArrives(s, previous);
    var first := TakeData(Msg(Head(s), s.snd.window[0]), Intact, previous);
    ItsAckArrives(After(s, first), ReceiverStep(s, first).replies[0], memory, rest, clock);
  }

  // ---- the sending window

  /** The sending window never closes, so a sender with nothing in flight may always read. */
  predicate WindowOpen(s: Sys) {
    s.snd.sendingWindow >= 1
  }

  lemma StepKeepsWindowOpen(s: Sys, a: Action)
    requires Inv(s) && Enabled(s, a) && WindowOpen(s)
    ensures WindowOpen(After(s, a))
  {
    hide Encoding, Decode, DataFor;
    if a.TakeAck? {
      var m := a.msg;
      assert AckFor(m.n, m.pkt);
      assert m.pkt.window as int == 31;
      AckArrival(m.pkt, a.effect, a.rest, a.previous);
    }
  }

  lemma {:induction false} WindowStaysOpen(states: seq<Sys>, actions: seq<Action>, k: nat)
    requires IsRun(states, actions) && k <= |actions|
    ensures 1 <= states[k].snd.sendingWindow <= MAX_WINDOW_SIZE
    decreases k
  {
    hide Offered, Timely, After, Inv;
    if k > 0 {
      RunStep(states, actions, k - 1);
      ReachableIsGood(states, actions, k - 1);
      WindowStaysOpen(states, actions, k - 1);
      StepKeepsWindowOpen(states[k - 1], actions[k - 1]);
    }
  }

  /** The step takes an ACK that has come whole. */
  predicate TakesAck(a: Action) {
    a.TakeAck? && a.effect == Intact && a.msg.pkt.ptype == ACK
  }

  /** The sender has read one buffer at most and may not read another. */
  predicate Cautious(s: Sys) {
    s.snd.sendingWindow == 1 && Head(s) == 0 && |s.read| <= 1
  }

  lemma StepStaysCautious(s: Sys, a: Action)
    requires Inv(s) && Enabled(s, a) && Cautious(s) && !TakesAck(a)
    ensures Cautious(After(s, a))
  {
    hide Encoding, Decode, DataFor, Wire, Previous;
    if a.TakeAck? {
      var m := a.msg;
      assert AckFor(m.n, m.pkt);
      AckArrival(m.pkt, a.effect, a.rest, a.previous);
    }
  }

  /** Until an ACK has come whole, the sender reads no more than one buffer, whatever NACKs do. */
  lemma {:induction false} OneUntilAcked(states: seq<Sys>, actions: seq<Action>, k: nat)
    requires IsRun(states, actions) && k <= |actions|
    requires forall i :: 0 <= i < k ==> !TakesAck(actions[i])
    ensures states[k].snd.sendingWindow == 1 && Head(states[k]) == 0 && |states[k].read| <= 1
    decreases k
  {
    hide Offered, Timely, After, Inv;
    if k > 0 {
      RunStep(states, actions, k - 1);
      ReachableIsGood(states, actions, k - 1);
      OneUntilAcked(states, actions, k - 1);
      StepStaysCautious(states[k - 1], actions[k - 1]);
    }
  }

  /** A new packet is sent only while there is room, and announces the room that there was, which is never zero. */
  lemma NewPacketAnnouncesRoom(s: Sys, chunk: seq<Octet>, clock: u32)
    requires Inv(s) && Offered(s, Input(chunk, clock)) && SenderStep(s, Input(chunk, clock)).sent != []
    ensures var p := SenderStep(s, Input(chunk, clock)).sent[0];
            1 <= p.window as int == s.snd.sendingWindow - |s.snd.window|
  {
  }

  /**
   What a NACK makes the sender do, in every state that the invariant allows and for every age that counts: it sends
   again the packet before the awaited one, if that is in flight still, and otherwise nothing; so never the one cut.
   */
  lemma NackResendsPredecessor(s: Sys, m: Msg, clock: u32)
    requires Inv(s) && m in s.acks && m.n >= Head(s) - ACK_STALENESS
    ensures m.n - Head(s) <= |s.snd.window|
    ensures var r := OnNack(s.snd, Previous(m.pkt.seqnum), clock);
            if Head(s) < m.n then
              && r.sent == [s.snd.window[m.n - 1 - Head(s)].(timestamp := clock)]
              && Label(s, r.sent[0]) == m.n - 1 < Got(s)
            else
              r == SResult(s.snd, [])
  {
    hide Encoding, DataFor, Q.Locate, Wire, Previous, WindowOk;
    assert AckFor(m.n, m.pkt) && m.n <= Got(s);
    NackFinds(s, m.n);
    if Head(s) < m.n {
      var i := m.n - 1 - Head(s);
      WindowNumbers(s);
      LabelOfWindow(s, i, s.snd.window[i].(timestamp := clock));
    }
  }

  // ---- the bound on the age of DATA is sharp

  /**
   A DATA packet more than 223 behind is taken for one ahead: at 224 or 225 behind the index leaves the window, and
   further behind the old packet is kept in the slot of a new one.
   */
  lemma StaleDataIsMisfiled(r: RState, p: Pkt, n: int, awaited: int)
    requires r.waited == Wire(awaited) && p.seqnum == Wire(n) && !p.tr
    requires awaited - 256 < n < awaited - DATA_STALENESS
    ensures n >= awaited - 225 ==> OnData(r, p).state.status == Overrun
    ensures n < awaited - 225 && r.window[n + 256 - awaited] == None ==>
              OnData(r, p).state.window[n + 256 - awaited] == Some(Keep(p))
  {
    IndIsOffset(n, awaited);
    WireInjective(n, awaited);
  }

  // ---- the bound on the age of ACKs is sharp

  /**
   An ACK whose last acknowledged packet is d behind the head drops packets exactly under the condition on the head's
   sequence number; if the receiver still awaits the head, they are packets that it has not got.
   */
  lemma StaleAckDropsUndelivered(s: Sys, a: int, window: u5)
    requires Inv(s) && |s.snd.window| > 0 && 1 <= Head(s) - (a - 1) <= 255
    ensures var t, d := s.(snd := OnAck(s.snd, Previous(Wire(a)), window)), Head(s) - (a - 1);
            && (Head(t) > Head(s) <==> if d <= Wire(Head(s)) then d > 100 else d >= 156)
            && (Got(s) == Head(s) < Head(t) ==> Got(t) < Head(t))
  {
    hide Wire, HigherOrEqual;
    PreviousIsPredecessor(a);
    WindowNumbers(s);
    assert s.snd.window[0].seqnum == Wire(Head(s) + 0);
    BehindTakenForAhead(Head(s), Head(s) - (a - 1));
  }

  // ---- the sender may leave before it has read anything

  /** `nb` starts at 0, so the exit test holds at the start: when the first `poll` times out, the sender leaves. */
  lemma MayLeaveUnread(clock: u32)
    ensures var leave := Action.Leave(clock);
            && Enabled(Start(), leave)
            && IsRun([Start(), After(Start(), leave)], [leave])
            && After(Start(), leave).left && After(Start(), leave).read == []
  {
  }

  /** The action sets `nb`: a read from the socket, or from the input if there is room in the window. */
  predicate SetsCount(s: Sys, a: Action) {
    a.TakeAck? || (a.Input? && s.snd.inWindow < s.snd.sendingWindow)
  }

  lemma CountAfterStep(s: Sys, a: Action)
    requires Inv(s) && Enabled(s, a)
    ensures SetsCount(s, a) ==> (After(s, a).snd.nb == 0 <==> a.Input? && a.chunk == [])
    ensures !SetsCount(s, a) ==> After(s, a).snd.nb == s.snd.nb
  {
    hide Encoding, Decode, DataFor, OnPacket, ReceiverStep, DataPacket;
    if a.TakeAck? {
      var m := a.msg;
      assert AckFor(m.n, m.pkt);
      AckArrival(m.pkt, a.effect, a.rest, a.previous);
      ArrivingIsNotEmpty(m.pkt, a.effect);
      TakenCount(s, a);
    }
  }

  lemma ArrivingIsNotEmpty(p: Pkt, e: Effect)
    requires Applicable(e, Encoding(p))
    ensures |Arriving(e, Encoding(p))| > 0
  {
    EncodingIsNotEmpty(p);
  }

  lemma TakenCount(s: Sys, a: Action)
    requires a.TakeAck? && Offered(s, a)
    ensures SenderStep(s, a).state.nb == |Arriving(a.effect, Encoding(a.msg.pkt))|
  {
    hide Encoding, Decode;
  }

  /** Action i is the last before k to set `nb`. */
  predicate LastToSet(states: seq<Sys>, actions: seq<Action>, k: nat, i: nat)
    requires k <= |actions| < |states|
  {
    i < k && SetsCount(states[i], actions[i]) && forall j :: i < j < k ==> !SetsCount(states[j], actions[j])
  }

  ghost predicate NoneSet(states: seq<Sys>, actions: seq<Action>, k: nat)
    requires k <= |actions| < |states|
  {
    forall j :: 0 <= j < k ==> !SetsCount(states[j], actions[j])
  }

  /** The last thing read was the end of the input. */
  ghost predicate EndWasRead(states: seq<Sys>, actions: seq<Action>, k: nat)
    requires k <= |actions| < |states|
  {
    exists i: nat :: LastToSet(states, actions, k, i) && actions[i].Input? && actions[i].chunk == []
  }

  lemma LastToSetMoves(states: seq<Sys>, actions: seq<Action>, k: nat)
    requires k < |actions| < |states|
    ensures var a := actions[k];
            if SetsCount(states[k], a) then
              !NoneSet(states, actions, k + 1) && (EndWasRead(states, actions, k + 1) <==> a.Input? && a.chunk == [])
            else
              && (NoneSet(states, actions, k + 1) <==> NoneSet(states, actions, k))
              && (EndWasRead(states, actions, k + 1) <==> EndWasRead(states, actions, k))
  {
    hide SetsCount;
    if SetsCount(states[k], actions[k]) {
      assert LastToSet(states, actions, k + 1, k);
    } else {
      assert forall i: nat :: LastToSet(states, actions, k + 1, i) <==> LastToSet(states, actions, k, i);
    }
  }

  lemma CountAtStart(states: seq<Sys>, actions: seq<Action>)
    requires IsRun(states, actions)
    ensures |states| == |actions| + 1
    ensures states[0].snd.nb == 0 && states[0].read == [] && NoneSet(states, actions, 0)
  {
    hide Offered, Timely, After;
  }

  /** `nb` is zero exactly if nothing has been read from either side, or the last read was of the end of the input. */
  lemma {:induction false} CountIsZero(states: seq<Sys>, actions: seq<Action>, k: nat)
    requires IsRun(states, actions) && k <= |actions|
    ensures states[k].snd.nb == 0 <==> NoneSet(states, actions, k) || EndWasRead(states, actions, k)
    decreases k
  {
    hide *;
    CountAtStart(states, actions);
    if k > 0 {
      RunStep(states, actions, k - 1);
      ReachableIsGood(states, actions, k - 1);
      CountIsZero(states, actions, k - 1);
      CountAfterStep(states[k - 1], actions[k - 1]);
      LastToSetMoves(states, actions, k - 1);
    }
  }

  /**
   So the sender leaves only at the end of its input, everything read having been acknowledged, or before anything has
   been read from either side; and an ACK read after the end of the input keeps it from leaving until it reads again.
   */
  lemma LeavesAtEndOrUnread(states: seq<Sys>, actions: seq<Action>, k: nat)
    requires IsRun(states, actions) && k < |actions| && actions[k].Leave?
    ensures states[k].snd.window == []
    ensures EndWasRead(states, actions, k) || (NoneSet(states, actions, k) && states[k].read == [])
  {
    hide Timely, After, Inv;
    RunStep(states, actions, k);
    CountIsZero(states, actions, k);
    ReachableIsGood(states, actions, k);
    WindowBounds(states, actions, k);
    if NoneSet(states, actions, k) {
      NothingIsRead(states, actions, k);
    }
  }

  lemma {:induction false} NothingIsRead(states: seq<Sys>, actions: seq<Action>, k: nat)
    requires IsRun(states, actions) && k <= |actions| && NoneSet(states, actions, k)
    ensures states[k].read == []
    decreases k
  {
    hide *;
    CountAtStart(states, actions);
    if k > 0 {
      RunStep(states, actions, k - 1);
      ReachableIsGood(states, actions, k - 1);
      LastToSetMoves(states, actions, k - 1);
      NothingIsRead(states, actions, k - 1);
      ReadAfterStep(states[k - 1], actions[k - 1]);
    }
  }

  lemma ReadAfterStep(s: Sys, a: Action)
    requires Inv(s) && Enabled(s, a) && !SetsCount(s, a)
    ensures After(s, a).read == s.read
  {
    hide Encoding, Decode, ReceiverStep;
  }

  // ---- one iteration of the sending loop is a few steps

  /** The state after a step that is perhaps not taken, and what it sends. */
  function Perform(s: Sys, a: Option<Action>): Sys
    requires a.Some? ==> Offered(s, a.value)
  {
    if a.Some? then After(s, a.value) else s
  }

  function SentBy(s: Sys, a: Option<Action>): seq<Pkt>
    requires a.Some? ==> Offered(s, a.value)
  {
    if a.Some? then SenderStep(s, a.value).sent else []
  }

  function InputAction(e: Events): Option<Action> {
    if e.input.Some? then Some(Input(e.input.value, e.clocks.input)) else None
  }

  /** The iteration takes a datagram exactly when the channel gives one, and that one. */
  predicate Explains(s: Sys, a: Option<Action>, e: Events) {
    if e.socket.Some? then
      && a.Some? && a.value.TakeAck? && a.value.clock == e.clocks.socket && Enabled(s, a.value)
      && (var datagram := Arriving(a.value.effect, Encoding(a.value.msg.pkt));
          e.socket.value == (Decode(datagram + a.value.rest, a.value.previous), |datagram|))
    else a == None
  }

  /**
   The loop body takes the sender where the steps for its input, its datagram and its scan take it, sends what they
   send, and leaves exactly when the step that leaves can happen, sending what that sends.
   */
  lemma IterationIsSteps(s: Sys, a: Option<Action>, e: Events)
    requires Inv(s) && !s.left && Possible(e) && Explains(Perform(s, InputAction(e)), a, e)
    ensures WindowInvariant(s.snd)
    ensures var i := Perform(s, InputAction(e));
            var t, scan, leave := Perform(i, a), Scan(e.clocks.scan, e.stamps), Action.Leave(e.clocks.leave);
            && Inv(t) && !t.left && Enabled(t, scan)
            && (var u, (r, leaves) := After(t, scan), LoopBody(s.snd, e);
                && Inv(u) && u.snd == r.state
                && (leaves <==> Enabled(u, leave))
                && r.sent == SentBy(s, InputAction(e)) + SentBy(i, a) + SenderStep(t, scan).sent
                             + if leaves then SenderStep(u, leave).sent else [])
  {
    hide Encoding, Decode, DataFor, OnInput, OnSocket, OnScan, OnReceive, InFlightOk, DataOk, AcksOk, ReceiverOk, Label;
    SenderOkMeansWindowInvariant(s);
    if e.input.Some? {
      StepKeepsInvariant(s, Input(e.input.value, e.clocks.input));
    }
    var i := Perform(s, InputAction(e));
    if e.socket.Some? {
      StepKeepsInvariant(i, a.value);
    }
    StepKeepsInvariant(Perform(i, a), Scan(e.clocks.scan, e.stamps));
  }
}
