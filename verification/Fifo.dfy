/** A channel that keeps the order and may lose anything meets the bounds on staleness: the theorems on runs apply. */
module Fifo {
  import opened Packets
  import opened SeqNum
  import opened ReceiverSpec
  import opened Protocol
  import opened Runs

  /** The packets under way in each direction, oldest first. */
  datatype FifoSys = FifoSys(sys: Sys, forward: seq<Msg>, back: seq<Msg>)

  datatype FifoAction = Do(action: Action) | LoseData(at: nat) | LoseAck(at: nat)

  function Without(q: seq<Msg>, i: nat): seq<Msg>
    requires i < |q|
  {
    q[..i] + q[i + 1..]
  }

  /** Only the oldest packet under way can arrive; nothing is said about its age. */
  predicate FifoEnabled(f: FifoSys, a: FifoAction) {
    match a
    case Do(b) =>
      && Offered(f.sys, b)
      && (b.TakeData? ==> |f.forward| > 0 && f.forward[0] == b.msg)
      && (b.TakeAck? ==> |f.back| > 0 && f.back[0] == b.msg)
    case LoseData(i) => i < |f.forward|
    case LoseAck(i) => i < |f.back|
  }

  function LabelAll(s: Sys, sent: seq<Pkt>): (ms: seq<Msg>)
    ensures |ms| == |sent|
    ensures forall i :: 0 <= i < |ms| ==> ms[i] == Msg(Label(s, sent[i]), sent[i])
  {
    seq(|sent|, i requires 0 <= i < |sent| => Msg(Label(s, sent[i]), sent[i]))
  }

  function AnswerAll(n: nat, replies: seq<Pkt>): (ms: seq<Msg>)
    ensures |ms| == |replies|
    ensures forall i :: 0 <= i < |ms| ==> ms[i] == Msg(n, replies[i])
  {
    seq(|replies|, i requires 0 <= i < |replies| => Msg(n, replies[i]))
  }

  function FifoAfter(f: FifoSys, a: FifoAction): FifoSys
    requires FifoEnabled(f, a)
  {
    match a
    case Do(b) =>
      FifoSys(
        After(f.sys, b),
        (if b.TakeData? then f.forward[1..] else f.forward) + LabelAll(f.sys, SenderStep(f.sys, b).sent),
        (if b.TakeAck? then f.back[1..] else f.back)
        + AnswerAll(|ReceiverStep(f.sys, b).state.written|, ReceiverStep(f.sys, b).replies))
    case LoseData(i) => f.(forward := Without(f.forward, i))
    case LoseAck(i) => f.(back := Without(f.back, i))
  }

  function FifoStart(): FifoSys {
    FifoSys(Start(), [], [])
  }

  // ---- the order of what is under way

  /** The numbers of the packets kept by the receiver. */
  predicate Kept(s: Sys, n: int) {
    0 <= n - Got(s) < MAX_WINDOW_SIZE && s.rcv.window[n - Got(s)].Some?
  }

  /** Nothing delivered or kept, and nothing sent before, is 31 or more ahead of a DATA packet under way. */
  ghost predicate NotOvertaken(s: Sys, n: int) {
    && Got(s) <= n + 31
    && (s.rcv.status == Running ==> forall k :: Kept(s, k) ==> k <= n + 30)
  }

  ghost predicate ForwardInOrder(f: FifoSys) {
    && (forall i :: 0 <= i < |f.forward| ==> f.forward[i] in f.sys.data && NotOvertaken(f.sys, f.forward[i].n))
    && (forall i, j :: 0 <= i < j < |f.forward| ==> f.forward[i].n <= f.forward[j].n + 30)
  }

  /** ACK numbers under way never decrease and are never behind the window. */
  predicate BackInOrder(f: FifoSys) {
    && (forall i :: 0 <= i < |f.back| ==> f.back[i] in f.sys.acks && Head(f.sys) <= f.back[i].n)
    && (forall i, j :: 0 <= i < j < |f.back| ==> f.back[i].n <= f.back[j].n)
  }

  ghost predicate FifoInv(f: FifoSys) {
    Inv(f.sys) && ForwardInOrder(f) && BackInOrder(f)
  }

  /**
   On arrival a DATA packet is at most 31 behind and 30 ahead of the awaited one, and an ACK or NACK number lies between
   the head of the window and the next number; so every arrival is timely.
   */
  lemma FifoIsTimely(f: FifoSys, b: Action)
    requires FifoInv(f) && FifoEnabled(f, Do(b))
    ensures b.TakeData? ==> Got(f.sys) - 31 <= b.msg.n <= Got(f.sys) + 30
    ensures b.TakeAck? ==> Head(f.sys) <= b.msg.n <= |f.sys.read|
    ensures Enabled(f.sys, b)
  {
    hide Encoding, Decode;
    if b.TakeData? {
      NumberIsNear(f.sys, b.msg);
      assert NotOvertaken(f.sys, f.forward[0].n);
    } else if b.TakeAck? {
      assert f.back[0] in f.sys.acks;
    }
    RecentIsTimely(f.sys, b);
  }

  /** What the receiver delivers or keeps in a step it had kept before, or has just received. */
  lemma NothingFromNowhere(s: Sys, a: Action)
    requires Inv(s) && Enabled(s, a) && a.TakeData?
    ensures var t := After(s, a);
            && (Got(t) == Got(s) || Got(t) - 1 == a.msg.n || (s.rcv.status == Running && Kept(s, Got(t) - 1)))
            && (t.rcv.status == Running ==> forall k :: Kept(t, k) ==> k == a.msg.n || Kept(s, k))
  {
    hide Encoding, Decode, DataFor, OnData, AckPacket, SenderStep;
    var m, t := a.msg, After(s, a);
    DataPacketFacts(s, m);
    DataArrival(m.pkt, a.effect, a.previous);
    EncodingIsNotEmpty(m.pkt);
    match a.effect
    case Intact => NothingFromNowhereWhole(s, m);
    case CutShort => CutPacket(s, m.pkt.(tr := true, payload := []));
    case Inverted(_) =>
  }

  lemma NothingFromNowhereWhole(s: Sys, m: Msg)
    requires Inv(s) && s.rcv.status == Running && m in s.data && DataHarmless(m.n, Got(s))
    ensures var t := s.(rcv := OnData(s.rcv, m.pkt).state);
            && (Got(t) == Got(s) || Got(t) - 1 == m.n || Kept(s, Got(t) - 1))
            && (t.rcv.status == Running ==> forall k :: Kept(t, k) ==> k == m.n || Kept(s, k))
  {
    hide AckPacket, InFlightOk, AcksOk, DataFor, Encoding, OnData;
    NumberIsNear(s, m);
    if m.n < Got(s) {
      PassedPacket(s, m);
    } else if m.n > Got(s) {
      EarlyPacket(s, m);
    } else if m.n < |s.read| {
      AwaitedPacket(s, m);
    } else {
      ClosingPacketArrives(s, m);
    }
  }

  /** What is sent in a step is numbered from the head of the window, and less than 31 from it. */
  lemma NewNumbers(s: Sys, a: Action, p: Pkt)
    requires Inv(s) && Enabled(s, a) && p in SenderStep(s, a).sent
    ensures Inv(After(s, a)) && Msg(Label(s, p), p) in After(s, a).data
    ensures Head(s) <= Label(s, p) <= Head(s) + 30
  {
    hide Encoding, Decode, DataFor, SenderStep, ReceiverStep, AckFor, WindowOk;
    StepKeepsInvariant(s, a);
    OtherEndWaits(s, a);
    var t := After(s, a);
    var m := Msg(Label(s, p), p);
    assert m in t.data;
    match a {
      case Input(chunk, clock) => InputStep(s, chunk, clock);
      case Scan(clock, stamps) => ScanStep(s, clock, stamps);
      case Leave(clock) => LeaveStep(s, clock);
      case TakeAck(_, _, _, _, _) => TakeAckStep(s, a);
      case TakeData(_, _, _) =>
      case Stop =>
    }
    assert DataFor(t.read, m.n, p) && (m.n == |t.read| ==> t.left);
    NumberInRange(t.read, m.n, p);
  }

  /** A packet just sent has not been overtaken. */
  lemma JustSent(s: Sys, n: int)
    requires Inv(s) && n >= Head(s)
    ensures NotOvertaken(s, n)
  {
    forall k | s.rcv.status == Running && Kept(s, k)
      ensures k <= n + 30
    {
      assert KeptOk(s.read, Got(s) + (k - Got(s)), s.rcv.window[k - Got(s)].value);
    }
  }

  lemma SenderStepsDoNotOvertake(s: Sys, a: Action, n: int)
    requires Enabled(s, a) && !a.TakeData? && NotOvertaken(s, n)
    ensures NotOvertaken(After(s, a), n)
  {
    hide Offered, Timely, After, NotOvertaken;
    ReceiverWaitsOrStops(s, a);
    NotOvertakenDependsOn(s, After(s, a), n);
  }

  lemma ReceiverWaitsOrStops(s: Sys, a: Action)
    requires Offered(s, a) && !a.TakeData?
    ensures After(s, a).rcv == s.rcv || After(s, a).rcv == s.rcv.(status := Stopped)
  {
    hide Encoding, Decode, SenderStep;
  }

  lemma NotOvertakenDependsOn(s: Sys, t: Sys, n: int)
    requires NotOvertaken(s, n) && (t.rcv == s.rcv || t.rcv == s.rcv.(status := Stopped))
    ensures NotOvertaken(t, n)
  {
    assert forall k :: Kept(t, k) <==> Kept(s, k);
  }

  lemma ArrivalDoesNotOvertake(s: Sys, a: Action, n: int)
    requires Inv(s) && Enabled(s, a) && a.TakeData? && NotOvertaken(s, n) && a.msg.n <= n + 30
    ensures NotOvertaken(After(s, a), n)
  {
    hide SenderStep, ReceiverStep;
    NothingFromNowhere(s, a);
  }

  lemma ForwardStaysInOrder(f: FifoSys, b: Action)
    requires FifoInv(f) && FifoEnabled(f, Do(b)) && Enabled(f.sys, b)
    ensures ForwardInOrder(FifoAfter(f, Do(b)))
  {
    hide Encoding, Decode, SenderStep, ReceiverStep, Label, NotOvertaken, LabelAll, BackInOrder, SenderOk, InFlightOk,
         AcksOk, ReceiverOk, DataFor;
    var s, g := f.sys, FifoAfter(f, Do(b));
    StepKeepsInvariant(s, b);
    var drop := if b.TakeData? then 1 else 0;
    var sent := SenderStep(s, b).sent;
    var kept := |f.forward| - drop;
    forall i | 0 <= i < |g.forward|
      ensures g.forward[i] in g.sys.data && NotOvertaken(g.sys, g.forward[i].n)
      ensures i < kept ==> g.forward[i] == f.forward[i + drop]
      ensures i >= kept ==> Head(s) <= g.forward[i].n <= Head(s) + 30
    {
      if i < kept {
        if b.TakeData? {
          ArrivalDoesNotOvertake(s, b, f.forward[i + 1].n);
        } else {
          SenderStepsDoNotOvertake(s, b, f.forward[i].n);
        }
      } else {
        var p := sent[i - kept];
        assert g.forward[i] == Msg(Label(s, p), p);
        NewNumbers(s, b, p);
        JustSent(s, Label(s, p));
        OnlySendersSend(s, b);
        SenderStepsDoNotOvertake(s, b, Label(s, p));
      }
    }
    forall i, j | 0 <= i < j < |g.forward|
      ensures g.forward[i].n <= g.forward[j].n + 30
    {
      if i < kept && j >= kept {
        OnlySendersSend(s, b);
        OldNumbers(s, f.forward[i + drop]);
      }
    }
  }

  lemma OnlySendersSend(s: Sys, a: Action)
    requires Offered(s, a) && SenderStep(s, a).sent != []
    ensures !a.TakeData? && !s.left
  {
  }

  lemma OldNumbers(s: Sys, m: Msg)
    requires Inv(s) && m in s.data && !s.left
    ensures m.n <= Head(s) + 30
  {
    hide DataFor;
    assert DataFor(s.read, m.n, m.pkt);
    NumberInRange(s.read, m.n, m.pkt);
  }

  lemma BackStaysInOrder(f: FifoSys, b: Action)
    requires FifoInv(f) && FifoEnabled(f, Do(b)) && Enabled(f.sys, b)
    ensures BackInOrder(FifoAfter(f, Do(b)))
  {
    hide Encoding, Decode, SenderStep, ReceiverStep, SenderOk, InFlightOk, DataOk, AckFor, WindowOk, AnswerAll;
    var s, g := f.sys, FifoAfter(f, Do(b));
    StepKeepsInvariant(s, b);
    HeadMoves(s, b);
    var drop := if b.TakeAck? then 1 else 0;
    var kept := |f.back| - drop;
    forall i | 0 <= i < |g.back|
      ensures g.back[i] in g.sys.acks && Head(g.sys) <= g.back[i].n
      ensures if i < kept then g.back[i] == f.back[i + drop] && g.back[i].n <= Got(s) else g.back[i].n == Got(g.sys)
    {
      if i < kept {
        assert g.back[i] == f.back[i + drop];
      }
    }
  }

  lemma WithoutElements(q: seq<Msg>, i: nat)
    requires i < |q|
    ensures |Without(q, i)| == |q| - 1
    ensures forall j :: 0 <= j < |q| - 1 ==> Without(q, i)[j] == q[if j < i then j else j + 1]
  {
  }

  lemma LossKeepsOrder(f: FifoSys, a: FifoAction)
    requires FifoInv(f) && FifoEnabled(f, a) && !a.Do?
    ensures FifoInv(FifoAfter(f, a))
  {
    hide Inv, NotOvertaken, Without, Head;
    if a.LoseData? {
      WithoutElements(f.forward, a.at);
    } else {
      WithoutElements(f.back, a.at);
    }
  }

  lemma FifoStepKeepsInvariant(f: FifoSys, a: FifoAction)
    requires FifoInv(f) && FifoEnabled(f, a)
    ensures FifoInv(FifoAfter(f, a))
  {
    if a.Do? {
      FifoIsTimely(f, a.action);
      StepKeepsInvariant(f.sys, a.action);
      ForwardStaysInOrder(f, a.action);
      BackStaysInOrder(f, a.action);
    } else {
      LossKeepsOrder(f, a);
    }
  }

  // ---- runs

  /** Steps over the FIFO channel, from any state. */
  predicate IsFifoPath(states: seq<FifoSys>, actions: seq<FifoAction>) {
    && |states| == |actions| + 1
    && forall i {:trigger actions[i]} :: 0 <= i < |actions| ==>
         FifoEnabled(states[i], actions[i]) && states[i + 1] == FifoAfter(states[i], actions[i])
  }

  /** A run over the FIFO channel. */
  predicate IsFifoRun(states: seq<FifoSys>, actions: seq<FifoAction>) {
    IsFifoPath(states, actions) && states[0] == FifoStart()
  }

  lemma FifoRunStep(states: seq<FifoSys>, actions: seq<FifoAction>, i: nat)
    requires IsFifoRun(states, actions) && i < |actions|
    ensures FifoEnabled(states[i], actions[i]) && states[i + 1] == FifoAfter(states[i], actions[i])
  {
  }

  lemma {:induction false} FifoReachableIsGood(states: seq<FifoSys>, actions: seq<FifoAction>, k: nat)
    requires IsFifoRun(states, actions) && k <= |actions|
    ensures FifoInv(states[k])
    decreases k
  {
    if k == 0 {
      StartIsGood();
    } else {
      hide FifoEnabled, FifoAfter, FifoInv;
      FifoRunStep(states, actions, k - 1);
      FifoReachableIsGood(states, actions, k - 1);
      FifoStepKeepsInvariant(states[k - 1], actions[k - 1]);
    }
  }

  /** The steps of the two ends, without the losses. */
  function Projection(actions: seq<FifoAction>): seq<Action> {
    if |actions| == 0 then []
    else
      var n := |actions| - 1;
      Projection(actions[..n]) + if actions[n].Do? then [actions[n].action] else []
  }

  lemma FifoRunShortened(states: seq<FifoSys>, actions: seq<FifoAction>)
    requires IsFifoRun(states, actions) && |actions| > 0
    ensures |states| == |actions| + 1
    ensures IsFifoRun(states[..|actions|], actions[..|actions| - 1])
  {
    hide FifoEnabled, FifoAfter;
    var n := |actions| - 1;
    forall i | 0 <= i < n
      ensures FifoEnabled(states[..n + 1][i], actions[..n][i])
      ensures states[..n + 1][i + 1] == FifoAfter(states[..n + 1][i], actions[..n][i])
    {
      assert actions[..n][i] == actions[i];
    }
  }

  /** Every run over the FIFO channel is, without its losses, a run over a channel of bounded staleness. */
  lemma {:induction false} FifoRefines(states: seq<FifoSys>, actions: seq<FifoAction>) returns (run: seq<Sys>)
    requires IsFifoRun(states, actions)
    ensures IsRun(run, Projection(actions))
    ensures run[|run| - 1] == states[|actions|].sys
    decreases |actions|
  {
    hide FifoEnabled, FifoInv, Offered, Timely, After, IsRun, IsFifoRun;
    if |actions| == 0 {
      run := [Start()];
      assert Projection(actions) == [];
      EmptyRun(states, actions);
    } else {
      var n := |actions| - 1;
      FifoRunShortened(states, actions);
      run := FifoRefines(states[..n + 1], actions[..n]);
      FifoRunStep(states, actions, n);
      FifoReachableIsGood(states, actions, n);
      RunLength(run, Projection(actions[..n]));
      if actions[n].Do? {
        FifoIsTimely(states[n], actions[n].action);
        RunExtended(run, Projection(actions[..n]), actions[n].action);
        run := run + [After(run[|run| - 1], actions[n].action)];
        assert Projection(actions) == Projection(actions[..n]) + [actions[n].action];
      } else {
        assert Projection(actions) == Projection(actions[..n]);
      }
    }
  }

  lemma EmptyRun(states: seq<FifoSys>, actions: seq<FifoAction>)
    requires IsFifoRun(states, actions) && |actions| == 0
    ensures IsRun([Start()], []) && |states| == 1 && states[0].sys == Start()
  {
  }

  lemma DataTestsAreAbsolute(s: Sys, m: Msg)
    requires Inv(s) && s.rcv.status == Running && m in s.data && Got(s) - 31 <= m.n <= Got(s) + 30
    ensures InWindow(s.rcv.waited, m.pkt.seqnum) <==> m.n >= Got(s)
    ensures m.n >= Got(s) ==> Ind(m.pkt.seqnum, s.rcv.waited) == m.n - Got(s) < MAX_WINDOW_SIZE
    ensures m.pkt.seqnum == s.rcv.waited <==> m.n == Got(s)
  {
    assert DataFor(s.read, m.n, m.pkt) && WindowOk(s);
    IndIsOffset(m.n, Got(s));
    WireInjective(m.n, Got(s));
  }

  lemma AckTestsAreAbsolute(s: Sys, m: Msg)
    requires Inv(s) && m in s.acks && Head(s) <= m.n
    ensures |s.snd.window| > 0 ==> (HigherOrEqual(Previous(m.pkt.seqnum), s.snd.window[0].seqnum) <==> m.n > Head(s))
    ensures Q.Locate(Q.NumbersOf(s.snd.window), 0, Previous(m.pkt.seqnum))
            == if m.n > Head(s) then m.n - 1 - Head(s) else |s.snd.window|
  {
    assert AckFor(m.n, m.pkt) && m.n <= Got(s);
    WindowNumbers(s);
    PreviousIsPredecessor(m.n);
    HigherOrEqualIsAbsolute(m.n - 1, Head(s));
    NackFinds(s, m.n);
  }

  /**
   At every arrival in every run over the FIFO channel: DATA is at most 31 behind and 30 ahead of the awaited packet, an
   ACK or NACK number lies between the head and the next number, and each test modulo 256, and the search for the packet
   that a NACK sends again, says what the absolute numbers say; the index into the receiver's window stays inside it.
   */
  lemma ArrivalsAreUnambiguous(states: seq<FifoSys>, actions: seq<FifoAction>, k: nat)
    requires IsFifoRun(states, actions) && k < |actions| && actions[k].Do?
    ensures var s, b := states[k].sys, actions[k].action;
            && (b.TakeData? ==>
                  var m := b.msg;
                  && Got(s) - 31 <= m.n <= Got(s) + 30
                  && (m.pkt.seqnum == s.rcv.waited <==> m.n == Got(s))
                  && (InWindow(s.rcv.waited, m.pkt.seqnum) <==> m.n >= Got(s))
                  && (m.n >= Got(s) ==> Ind(m.pkt.seqnum, s.rcv.waited) == m.n - Got(s) < MAX_WINDOW_SIZE))
            && (b.TakeAck? ==>
                  var m := b.msg;
                  && Head(s) <= m.n <= |s.read|
                  && (|s.snd.window| > 0 ==>
                        (HigherOrEqual(Previous(m.pkt.seqnum), s.snd.window[0].seqnum) <==> m.n > Head(s)))
                  && Q.Locate(Q.NumbersOf(s.snd.window), 0, Previous(m.pkt.seqnum))
                     == if m.n > Head(s) then m.n - 1 - Head(s) else |s.snd.window|)
  {
    hide FifoAfter, Encoding, Decode, Inv, HigherOrEqual, InWindow, Ind, Previous;
    FifoRunStep(states, actions, k);
    FifoReachableIsGood(states, actions, k);
    var s, b := states[k].sys, actions[k].action;
    FifoIsTimely(states[k], b);
    if b.TakeData? {
      DataTestsAreAbsolute(s, b.msg);
    } else if b.TakeAck? {
      AckTestsAreAbsolute(s, b.msg);
    }
  }

  /** Over a FIFO channel that may lose anything, the receiver's output is always a prefix of the sender's input. */
  lemma FifoSafety(states: seq<FifoSys>, actions: seq<FifoAction>)
    requires IsFifoRun(states, actions)
    ensures var s := states[|actions|].sys;
            && s.rcv.written <= s.read && Flatten(s.rcv.written) <= Flatten(s.read)
            && s.rcv.status != Overrun
            && (s.left || s.rcv.status == Closed ==> s.rcv.written == s.read)
  {
    var run := FifoRefines(states, actions);
    var steps := Projection(actions);
    Safety(run, steps, |steps|);
    Completeness(run, steps, |steps|);
  }

  // ---- paths

  lemma FifoPathsJoin(states: seq<FifoSys>, actions: seq<FifoAction>, more: seq<FifoSys>, steps: seq<FifoAction>)
    requires IsFifoPath(states, actions) && IsFifoPath(more, steps) && states[|actions|] == more[0]
    ensures IsFifoPath(states + more[1..], actions + steps)
  {
    hide FifoEnabled, FifoAfter;
    var s, a, n := states + more[1..], actions + steps, |actions|;
    forall i | 0 <= i < |a|
      ensures FifoEnabled(s[i], a[i]) && s[i + 1] == FifoAfter(s[i], a[i])
    {
      if i < n {
        assert a[i] == actions[i];
      } else {
        assert a[i] == steps[i - n] && s[i] == more[i - n] && s[i + 1] == more[i - n + 1];
      }
    }
  }

  lemma FifoPathOfOne(f: FifoSys, a: FifoAction)
    requires FifoEnabled(f, a)
    ensures IsFifoPath([f, FifoAfter(f, a)], [a])
  {
    hide FifoEnabled, FifoAfter;
  }
}
