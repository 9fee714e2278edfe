/**
 Both ends joined by a channel that loses, delays, reorders, duplicates, cuts and corrupts datagrams. Everything ever
 sent stays deliverable, so a loss is a delivery that never happens.
 */
module Protocol {
  import opened Octets
  import opened Options
  import opened Packets
  import opened SeqNum
  import Q = SenderQueue
  import opened SenderSpec
  import opened ReceiverSpec
  import opened ReceiverWindow

  // ---- what the link does to one datagram

  datatype Effect = Intact | CutShort | Inverted(at: nat)

  predicate Applicable(e: Effect, s: seq<Octet>) {
    match e
    case Intact => true
    case CutShort => |s| > 12
    case Inverted(i) => i < |s|
  }

  lemma IntactApplies(s: seq<Octet>)
    ensures Applicable(Intact, s)
  {
  }

  function Arriving(e: Effect, s: seq<Octet>): seq<Octet>
    requires Applicable(e, s)
  {
    match e
    case Intact => s
    case CutShort => Cut(s)
    case Inverted(i) => Invert(s, i)
  }

  /** A DATA packet arrives whole, or without its payload and marked so, or as nothing that is taken for DATA. */
  lemma DataArrival(p: Pkt, e: Effect, previous: u16)
    requires WellFormed(p) && p.ptype == DATA && !p.tr
    requires Applicable(e, Encoding(p))
    ensures var r := Decode(Arriving(e, Encoding(p)), previous);
            match e
            case Intact => r == Accepted(p)
            case CutShort => r == Accepted(p.(tr := true, payload := []))
            case Inverted(_) => r.Accepted? ==> r.pkt.ptype != DATA
  {
    hide Encoding, Decode, WellFormed;
    var s := Encoding(p);
    assert s + [] == s;
    match e
    case Intact =>
      RoundTrip(p, [], previous);
    case CutShort =>
      LongMeansPayload(p);
      CutIsRecognised(p, previous);
    case Inverted(i) =>
      var t := Invert(s, i);
      assert t + [] == t;
      OctetDiffersFromInverse(s[i]);
      if i == 0 {
        InvertedTypeNeverReturns(p, [], previous);
      } else {
        DamageDetected(p, i, !s[i], [], previous);
      }
  }

  lemma OctetDiffersFromInverse(b: Octet)
    ensures !b != b
  {
  }

  lemma LongMeansPayload(p: Pkt)
    requires WellFormed(p) && |Encoding(p)| > 12
    ensures p.ptype == DATA && !p.tr && p.length > 0
  {
  }

  /** An ACK or NACK arrives whole or as nothing that is taken for one, whatever octets the buffer held after it. */
  lemma AckArrival(p: Pkt, e: Effect, rest: seq<Octet>, previous: u16)
    requires WellFormed(p) && (p.ptype == ACK || p.ptype == NACK)
    requires Applicable(e, Encoding(p))
    ensures |Encoding(p)| == 10 && e != CutShort
    ensures var r := Decode(Arriving(e, Encoding(p)) + rest, previous);
            if e == Intact then r == Accepted(p) else r.Accepted? ==> r.pkt.ptype == DATA
  {
    hide Decode;
    var s := Encoding(p);
    match e
    case Intact =>
      RoundTrip(p, rest, previous);
    case CutShort =>
    case Inverted(i) =>
      OctetDiffersFromInverse(s[i]);
      if i == 0 {
        InvertedTypeNeverReturns(p, rest, previous);
        assert !ACK == DATA;
      } else {
        DamageDetected(p, i, !s[i], rest, previous);
      }
  }

  // ---- the system

  /** A packet with the number it stands for: its own for DATA, the awaited one when it was sent for ACK and NACK. */
  datatype Msg = Msg(n: int, pkt: Pkt)

  /** `read` is what the sender has read, read by read; `data` and `acks` are what was ever sent either way. */
  datatype Sys = Sys(snd: SState, left: bool, read: seq<seq<Octet>>, rcv: RState, data: set<Msg>, acks: set<Msg>)

  function Start(): Sys {
    Sys(InitialSender(), false, [], InitialReceiver(), {}, {})
  }

  /** The oldest packet not acknowledged, and the awaited packet. */
  function Head(s: Sys): int {
    |s.read| - |s.snd.window|
  }

  function Got(s: Sys): nat {
    |s.rcv.written|
  }

  datatype Action =
    | Input(chunk: seq<Octet>, clock: u32)
    | Scan(clock: u32, stamps: seq<u32>)
    | Leave(clock: u32)
    | TakeAck(msg: Msg, effect: Effect, rest: seq<Octet>, previous: u16, clock: u32)
    | TakeData(msg: Msg, effect: Effect, previous: u16)
    | Stop

  const DATA_STALENESS: nat := 223
  const ACK_STALENESS: nat := 100

  /** The number n of a packet that the receiver has passed is not taken for one that it awaits or may keep. */
  predicate DataHarmless(n: int, got: int) {
    n < got ==> 1 <= (got - n) % 256 <= DATA_STALENESS
  }

  /** An ACK that says n, when all those have left the window, is not taken to cover the head. */
  predicate AckHarmless(s: Sys, n: int) {
    n <= Head(s) && s.snd.window != [] ==> !HigherOrEqual(Wire(n - 1), Wire(Head(s)))
  }

  /** May the step happen, apart from the age of what arrives? */
  predicate Offered(s: Sys, a: Action) {
    match a
    case Input(chunk, _) => !s.left && |chunk| <= MAX_PAYLOAD_SIZE
    case Scan(_, stamps) => !s.left && |s.snd.window| <= |stamps|
    case Leave(_) => !s.left && Leaves(s.snd)
    case TakeAck(m, e, rest, previous, _) =>
      !s.left && m in s.acks && Applicable(e, Encoding(m.pkt))
      && |Arriving(e, Encoding(m.pkt)) + rest| == 12
    case TakeData(m, e, previous) =>
      s.rcv.status == Running && m in s.data && Applicable(e, Encoding(m.pkt))
    case Stop => s.rcv.status == Running
  }

  /**
   All that is asked of the channel: no old packet arrives whole at a time when its number is taken for that of a new
   one. NACKs, and what arrives cut or corrupted, may be of any age.
   */
  predicate Timely(s: Sys, a: Action) {
    match a
    case TakeAck(m, e, _, _, _) => e == Intact && m.pkt.ptype == ACK ==> AckHarmless(s, m.n)
    case TakeData(m, e, _) => e == Intact ==> DataHarmless(m.n, Got(s))
    case _ => true
  }

  /** Bounded staleness: DATA is at most 223 behind, and what an ACK acknowledges last at most 100 behind the head. */
  predicate Recent(s: Sys, a: Action) {
    match a
    case TakeAck(m, _, _, _, _) => m.n - 1 >= Head(s) - ACK_STALENESS
    case TakeData(m, _, _) => m.n >= Got(s) - DATA_STALENESS
    case _ => true
  }

  /** A channel of bounded staleness does what is asked. */
  lemma RecentIsTimely(s: Sys, a: Action)
    requires Recent(s, a)
    ensures Timely(s, a)
  {
    if a.TakeAck? && a.msg.n <= Head(s) {
      HigherOrEqualIsAbsolute(a.msg.n - 1, Head(s));
    }
  }

  predicate Enabled(s: Sys, a: Action) {
    Offered(s, a) && Timely(s, a)
  }

  /** What the sender does. */
  function SenderStep(s: Sys, a: Action): SResult
    requires Offered(s, a)
  {
    match a
    case Input(chunk, clock) => OnInput(s.snd, chunk, clock)
    case Scan(clock, stamps) => OnScan(s.snd, clock, stamps)
    case Leave(clock) => SResult(s.snd, [ClosingPacket(s.snd, clock)])
    case TakeAck(m, e, rest, previous, clock) =>
      var datagram := Arriving(e, Encoding(m.pkt));
      OnSocket(s.snd, Decode(datagram + rest, previous), |datagram|, clock)
    case _ => SResult(s.snd, [])
  }

  /** What the receiver does. */
  function ReceiverStep(s: Sys, a: Action): RResult
    requires Offered(s, a)
  {
    match a
    case TakeData(m, e, previous) => OnReceive(s.rcv, Arriving(e, Encoding(m.pkt)), previous)
    case Stop => RResult(s.rcv.(status := Stopped), [])
    case _ => RResult(s.rcv, [])
  }

  /** The number that a sent packet stands for: the one from the head on that has its sequence number. */
  function Label(s: Sys, p: Pkt): int {
    Head(s) + Ind(p.seqnum, Wire(Head(s)))
  }

  function Sends(s: Sys, sent: seq<Pkt>): set<Msg> {
    set p | p in sent :: Msg(Label(s, p), p)
  }

  function Answers(n: nat, replies: seq<Pkt>): set<Msg> {
    set p | p in replies :: Msg(n, p)
  }

  function After(s: Sys, a: Action): Sys
    requires Offered(s, a)
  {
    var sender, receiver := SenderStep(s, a), ReceiverStep(s, a);
    Sys(
      sender.state,
      s.left || a.Leave?,
      if a.Input? && |sender.sent| != 0 then s.read + [a.chunk] else s.read,
      receiver.state,
      s.data + Sends(s, sender.sent),
      s.acks + Answers(|receiver.state.written|, receiver.replies))
  }

  // ---- the invariant

  /** p is a DATA packet for number n: the n-th read, or the empty packet after the last one. */
  predicate DataFor(read: seq<seq<Octet>>, n: int, p: Pkt) {
    && WellFormed(p) && p.ptype == DATA && !p.tr
    && 0 <= n <= |read| && p.seqnum == Wire(n)
    && (n < |read| ==> p.payload == read[n] && p.length > 0)
    && (n == |read| ==> p.length == 0)
  }

  predicate SenderOk(s: Sys) {
    && |s.snd.window| == s.snd.inWindow <= MAX_WINDOW_SIZE
    && |s.snd.window| <= |s.read|
    && s.snd.seqnum == Wire(|s.read|)
    && (forall i :: 0 <= i < |s.snd.window| ==> DataFor(s.read, Head(s) + i, s.snd.window[i]))
    && (s.left ==> s.snd.window == [])
  }

  predicate InFlightOk(s: Sys) {
    forall i :: 0 <= i < |s.snd.window| ==> Msg(Head(s) + i, s.snd.window[i]) in s.data
  }

  predicate DataOk(s: Sys) {
    forall m :: m in s.data ==> DataFor(s.read, m.n, m.pkt) && (m.n == |s.read| ==> s.left)
  }

  /** p is a NACK or, once something has been delivered, an ACK that says n packets have been. */
  predicate AckFor(n: int, p: Pkt) {
    p == AckPacket(NACK, Wire(n), p.timestamp) || (p == AckPacket(ACK, Wire(n), p.timestamp) && n > 0)
  }

  predicate AcksOk(s: Sys) {
    forall m :: m in s.acks ==> 0 <= m.n <= Got(s) && AckFor(m.n, m.pkt)
  }

  /** What slot j may hold: the packet j after the awaited one. */
  predicate KeptOk(read: seq<seq<Octet>>, n: nat, x: Stored) {
    n < |read| && x.payload == read[n] && x.length == |x.payload| > 0 && x.seqnum == Wire(n)
  }

  predicate WindowOk(s: Sys) {
    && s.rcv.window[0] == None
    && s.rcv.waited == Wire(Got(s))
    && (s.rcv.receivePkt != 0 <==> Got(s) > 0)
    && forall j :: 0 <= j < MAX_WINDOW_SIZE && s.rcv.window[j].Some? ==>
         KeptOk(s.read, Got(s) + j, s.rcv.window[j].value)
  }

  predicate ReceiverOk(s: Sys) {
    && Head(s) <= Got(s) <= |s.read| && s.rcv.written == s.read[..Got(s)]
    && s.rcv.status != Overrun
    && (s.rcv.status == Running ==> WindowOk(s))
    && (s.rcv.status == Closed ==> s.left)
  }

  predicate Inv(s: Sys) {
    SenderOk(s) && InFlightOk(s) && DataOk(s) && AcksOk(s) && ReceiverOk(s)
  }

  lemma StartIsGood()
    ensures Inv(Start())
  {
  }

  lemma SenderOkMeansWindowInvariant(s: Sys)
    requires SenderOk(s)
    ensures WindowInvariant(s.snd)
  {
    forall i | 0 <= i < |s.snd.window|
      ensures s.snd.window[i].seqnum == Wire(s.snd.seqnum - |s.snd.window| + i)
    {
      WireOfWire(|s.read|, i - |s.snd.window|);
    }
  }

  lemma LabelOfWindow(s: Sys, i: nat, p: Pkt)
    requires i <= MAX_WINDOW_SIZE && p.seqnum == Wire(Head(s) + i)
    ensures Label(s, p) == Head(s) + i
  {
    IndIsOffset(Head(s) + i, Head(s));
  }

  // ---- the receiver's steps

  /** An arriving packet is less than 31 ahead: the index into the window never leaves it. */
  lemma NumberIsNear(s: Sys, m: Msg)
    requires Inv(s) && m in s.data
    ensures m.n <= Got(s) + 30
    ensures m.n == |s.read| ==> s.left && Got(s) == |s.read|
  {
  }

  lemma PassedPacket(s: Sys, m: Msg)
    requires Inv(s) && s.rcv.status == Running && m in s.data
    requires m.n < Got(s) && DataHarmless(m.n, Got(s))
    ensures OnData(s.rcv, m.pkt)
            == RResult(s.rcv, [AckPacket(ACK, Wire(Got(s)), m.pkt.timestamp)])
  {
    hide AckPacket, InWindow, Ind, Wire, InFlightOk, AcksOk;
    PassedPacketsAreOutside(m.n, Got(s));
  }

  lemma EarlyPacket(s: Sys, m: Msg)
    requires Inv(s) && s.rcv.status == Running && m in s.data && m.n > Got(s)
    ensures var r := OnData(s.rcv, m.pkt);
            && ReceiverOk(s.(rcv := r.state)) && r.state.status == Running && r.state.written == s.rcv.written
            && r.state.window[m.n - Got(s)]
               == (if s.rcv.window[m.n - Got(s)].Some? then s.rcv.window[m.n - Got(s)]
                   else Some(Stored(m.pkt.payload, m.pkt.length, m.pkt.seqnum, m.pkt.timestamp)))
            && (forall j :: 0 <= j < MAX_WINDOW_SIZE && j != m.n - Got(s) ==> r.state.window[j] == s.rcv.window[j])
            && r.replies == if Got(s) > 0 then [AckPacket(ACK, Wire(Got(s)), m.pkt.timestamp)] else []
  {
    hide AckPacket;
    NumberIsNear(s, m);
    IndIsOffset(m.n, Got(s));
    WireInjective(m.n, Got(s));
  }

  lemma RunIsWhatWasRead(s: Sys)
    requires WindowOk(s) && Got(s) < |s.read|
    ensures var w, e := s.rcv.window, RunEnd(s.rcv.window, 1);
            && 1 <= e && Got(s) + e <= |s.read| && (e < MAX_WINDOW_SIZE ==> w[e] == None)
            && Payloads(w, 1, e) == s.read[Got(s) + 1..Got(s) + e]
  {
    var w, e := s.rcv.window, RunEnd(s.rcv.window, 1);
    assert e > 1 ==> KeptOk(s.read, Got(s) + e - 1, w[e - 1].value);
    assert e < MAX_WINDOW_SIZE ==> w[e] == None;
    forall i | 0 <= i < e - 1
      ensures Payloads(w, 1, e)[i] == s.read[Got(s) + 1..Got(s) + e][i]
    {
      assert KeptOk(s.read, Got(s) + 1 + i, w[1 + i].value);
    }
  }

  lemma RebasedWindowIsOk(s: Sys, t: Sys, e: nat)
    requires WindowOk(s) && 1 <= e <= MAX_WINDOW_SIZE && (e < MAX_WINDOW_SIZE ==> s.rcv.window[e] == None)
    requires t.read == s.read && Got(t) == Got(s) + e && t.rcv.window == Shifted(s.rcv.window, e)
    requires t.rcv.waited == Wire(s.rcv.waited + e) && t.rcv.receivePkt == e
    ensures WindowOk(t)
  {
    WireOfWire(Got(s), e);
    forall j | 0 <= j < MAX_WINDOW_SIZE && t.rcv.window[j].Some?
      ensures KeptOk(t.read, Got(t) + j, t.rcv.window[j].value)
    {
      assert t.rcv.window[j] == s.rcv.window[j + e];
    }
  }

  lemma AwaitedPacket(s: Sys, m: Msg)
    requires Inv(s) && s.rcv.status == Running && m in s.data && m.n == Got(s) < |s.read|
    ensures var r, e := OnData(s.rcv, m.pkt), RunEnd(s.rcv.window, 1);
            && ReceiverOk(s.(rcv := r.state)) && r.state.status == Running
            && 1 <= e && Got(s) + e <= |s.read| && r.state.written == s.read[..Got(s) + e]
            && r.state.window == Shifted(s.rcv.window, e)
            && r.replies
               == [AckPacket(ACK, Wire(Got(s) + e),
                             if e == 1 then m.pkt.timestamp else s.rcv.window[e - 1].value.timestamp)]
  {
    hide RunEnd, Payloads, Shifted, AckPacket, InFlightOk, AcksOk, KeptOk, Encoding;
    var w, e := s.rcv.window, RunEnd(s.rcv.window, 1);
    var r := OnAwaited(s.rcv, m.pkt);
    RunIsWhatWasRead(s);
    WireOfWire(Got(s), e);
    assert r.state.written == s.read[..Got(s) + e];
    RebasedWindowIsOk(s, s.(rcv := r.state), e);
  }

  lemma WholePacket(s: Sys, m: Msg)
    requires Inv(s) && s.rcv.status == Running && m in s.data && DataHarmless(m.n, Got(s))
    ensures var r := OnData(s.rcv, m.pkt);
            && ReceiverOk(s.(rcv := r.state)) && |r.state.written| >= Got(s)
            && forall p :: p in r.replies ==> AckFor(|r.state.written|, p)
  {
    hide OnData, AckPacket;
    NumberIsNear(s, m);
    if m.n < Got(s) {
      PassedPacket(s, m);
    } else if m.n > Got(s) {
      EarlyPacket(s, m);
    } else if m.n < |s.read| {
      AwaitedPacket(s, m);
    } else {
      ClosingPacketArrives(s, m);
    }
  }

  lemma ClosingPacketArrives(s: Sys, m: Msg)
    requires Inv(s) && s.rcv.status == Running && m in s.data && m.n == |s.read|
    ensures OnData(s.rcv, m.pkt) == RResult(s.rcv.(status := Closed), []) && s.left
  {
  }

  lemma CutPacket(s: Sys, p: Pkt)
    requires p.tr && WindowOk(s)
    ensures OnData(s.rcv, p) == RResult(s.rcv, [AckPacket(NACK, Wire(Got(s)), p.timestamp)])
  {
  }

  lemma EncodingIsNotEmpty(p: Pkt)
    ensures |Encoding(p)| >= 10
  {
  }

  lemma ReceiverStepIsGood(s: Sys, a: Action)
    requires Inv(s) && Enabled(s, a)
    ensures var r := ReceiverStep(s, a);
            && ReceiverOk(s.(rcv := r.state)) && |r.state.written| >= Got(s)
            && forall p :: p in r.replies ==> AckFor(|r.state.written|, p)
  {
    hide OnData, AckPacket, Encoding, Decode, WindowOk, DataFor;
    if a.TakeData? {
      var m := a.msg;
      assert WellFormed(m.pkt) && m.pkt.ptype == DATA && !m.pkt.tr by { DataPacketFacts(s, m); }
      DataArrival(m.pkt, a.effect, a.previous);
      EncodingIsNotEmpty(m.pkt);
      match a.effect
      case Intact => WholePacket(s, m);
      case CutShort => CutPacket(s, m.pkt.(tr := true, payload := []));
      case Inverted(_) =>
    }
  }

  lemma DataPacketFacts(s: Sys, m: Msg)
    requires DataOk(s) && m in s.data
    ensures WellFormed(m.pkt) && m.pkt.ptype == DATA && !m.pkt.tr
  {
  }

  // ---- the sender's steps

  lemma DataForLongerRead(read: seq<seq<Octet>>, chunk: seq<Octet>, n: int, p: Pkt)
    requires DataFor(read, n, p) && n < |read|
    ensures DataFor(read + [chunk], n, p)
  {
  }

  lemma DataForAnyTime(read: seq<seq<Octet>>, n: int, p: Pkt, timestamp: u32)
    requires DataFor(read, n, p)
    ensures DataFor(read, n, p.(timestamp := timestamp))
  {
  }

  /** What the sender keeps or sends again stays in flight, and everything in flight stays good. */
  lemma SentStaysGood(s: Sys, t: Sys, sent: seq<Pkt>)
    requires DataOk(s) && SenderOk(t) && !s.left && !t.left && Head(t) == Head(s)
    requires t.read == s.read || exists chunk :: t.read == s.read + [chunk]
    requires t.data == s.data + Sends(s, sent)
    requires forall p :: p in sent ==> p in t.snd.window
    requires forall i :: 0 <= i < |t.snd.window| ==>
               t.snd.window[i] in sent || Msg(Head(s) + i, t.snd.window[i]) in s.data
    ensures DataOk(t) && InFlightOk(t)
  {
    hide DataFor;
    forall m | m in t.data
      ensures DataFor(t.read, m.n, m.pkt) && m.n < |t.read|
    {
      if m in s.data {
        if t.read != s.read {
          var chunk :| t.read == s.read + [chunk];
          NumberInRange(s.read, m.n, m.pkt);
          DataForLongerRead(s.read, chunk, m.n, m.pkt);
        }
        NumberInRange(s.read, m.n, m.pkt);
      } else {
        var i :| 0 <= i < |t.snd.window| && t.snd.window[i] == m.pkt;
        NumberInRange(t.read, Head(t) + i, m.pkt);
        LabelOfWindow(s, i, m.pkt);
      }
    }
    forall i | 0 <= i < |t.snd.window|
      ensures Msg(Head(t) + i, t.snd.window[i]) in t.data
    {
      NumberInRange(t.read, Head(t) + i, t.snd.window[i]);
      LabelOfWindow(s, i, t.snd.window[i]);
    }
  }

  lemma NumberInRange(read: seq<seq<Octet>>, n: int, p: Pkt)
    requires DataFor(read, n, p)
    ensures 0 <= n <= |read| && p.seqnum == Wire(n)
  {
  }

  lemma NewPacketIsGood(s: Sys, chunk: seq<Octet>, clock: u32)
    requires SenderOk(s) && 0 < |chunk| <= MAX_PAYLOAD_SIZE && s.snd.inWindow < s.snd.sendingWindow
    ensures var r := OnInput(s.snd, chunk, clock);
            && |r.sent| == 1 && r.state.window == s.snd.window + r.sent && r.state.inWindow == |s.snd.window| + 1
            && r.state.seqnum == Wire(|s.read| + 1)
            && DataFor(s.read + [chunk], |s.read|, r.sent[0])
  {
    WireSuccessor(|s.read|);
  }

  lemma InputStep(s: Sys, chunk: seq<Octet>, clock: u32)
    requires Inv(s) && Offered(s, Input(chunk, clock))
    ensures var t := After(s, Input(chunk, clock));
            && SenderOk(t) && DataOk(t) && InFlightOk(t) && Head(t) == Head(s)
  {
    hide Encoding, Decode, DataFor, DataPacket, Wire;
    var t := After(s, Input(chunk, clock));
    var sent := OnInput(s.snd, chunk, clock).sent;
    if sent != [] {
      NewPacketIsGood(s, chunk, clock);
      forall i | 0 <= i < |t.snd.window|
        ensures DataFor(t.read, Head(s) + i, t.snd.window[i])
      {
        if i < |s.snd.window| {
          WindowNumbers(s);
          assert DataFor(s.read, Head(s) + i, s.snd.window[i]);
          DataForLongerRead(s.read, chunk, Head(s) + i, s.snd.window[i]);
        }
      }
      SentStaysGood(s, t, sent);
    }
  }

  lemma ScanStep(s: Sys, clock: u32, stamps: seq<u32>)
    requires Inv(s) && Offered(s, Scan(clock, stamps))
    ensures var t := After(s, Scan(clock, stamps));
            && SenderOk(t) && DataOk(t) && InFlightOk(t) && Head(t) == Head(s)
  {
    hide Encoding, Decode, DataFor, Visits, ScanSends, Expired, AcksOk, Label, Wire;
    var t := After(s, Scan(clock, stamps));
    var w, sent := s.snd.window, OnScan(s.snd, clock, stamps).sent;
    ScanSendsWhatItRestamps(w, |w|, clock, stamps);
    assert t.snd.window[..|w|] == t.snd.window;
    forall i | 0 <= i < |w|
      ensures DataFor(t.read, Head(s) + i, t.snd.window[i])
    {
      DataForAnyTime(s.read, Head(s) + i, w[i], stamps[i]);
    }
    if !s.left && |w| > 0 {
      SentStaysGood(s, t, sent);
    }
  }

  lemma LeaveStep(s: Sys, clock: u32)
    requires Inv(s) && Offered(s, Action.Leave(clock))
    ensures var t := After(s, Action.Leave(clock));
            && SenderOk(t) && DataOk(t) && InFlightOk(t) && Head(t) == Head(s) == |s.read|
  {
    hide Encoding, Decode, FiveBitsOf;
    var p := ClosingPacket(s.snd, clock);
    LabelOfWindow(s, 0, p);
    assert DataFor(s.read, |s.read|, p);
  }

  /** The loop over an ACK that says a packets have been delivered drops those and no others. */
  lemma {:induction false} AckedCountIsDistance(window: seq<Pkt>, head: int, a: int)
    requires forall i :: 0 <= i < |window| ==> window[i].seqnum == Wire(head + i)
    requires head - ACK_STALENESS <= a - 1 <= head + ACK_STALENESS
    ensures AckedCount(window, Wire(a - 1))
            == if a <= head then 0 else if a - head <= |window| then a - head else |window|
    decreases |window|
  {
    if |window| > 0 {
      HigherOrEqualIsAbsolute(a - 1, head);
      assert window[0].seqnum == Wire(head + 0);
      if a > head {
        forall i | 0 <= i < |window| - 1
          ensures window[1..][i].seqnum == Wire(head + 1 + i)
        {
          assert window[1..][i] == window[i + 1];
        }
        AckedCountIsDistance(window[1..], head + 1, a);
      }
    }
  }

  lemma WindowNumbers(s: Sys)
    requires SenderOk(s)
    ensures forall i :: 0 <= i < |s.snd.window| ==> s.snd.window[i].seqnum == Wire(Head(s) + i)
  {
  }

  /** Dropping the k oldest packets. */
  lemma DroppingStaysGood(s: Sys, k: nat, t: Sys)
    requires SenderOk(s) && InFlightOk(s) && k <= |s.snd.window| && !s.left
    requires t == s.(snd := t.snd) && t.snd.window == s.snd.window[k..]
    requires t.snd.inWindow == s.snd.inWindow - k && t.snd.seqnum == s.snd.seqnum
    ensures SenderOk(t) && InFlightOk(t) && Head(t) == Head(s) + k
  {
    hide DataFor, Wire;
    forall i | 0 <= i < |t.snd.window|
      ensures DataFor(t.read, Head(t) + i, t.snd.window[i]) && Msg(Head(t) + i, t.snd.window[i]) in t.data
    {
      assert DataFor(s.read, Head(s) + (k + i), s.snd.window[k + i]);
      assert Msg(Head(s) + (k + i), s.snd.window[k + i]) in s.data;
    }
  }

  lemma DeliveredIsRead(s: Sys)
    requires Inv(s)
    ensures Got(s) <= |s.read|
  {
  }

  lemma DataStaysOk(s: Sys, t: Sys)
    requires DataOk(s) && t == s.(snd := t.snd)
    ensures DataOk(t)
  {
  }

  lemma UncoveredHeadStays(window: seq<Pkt>, seqnum: u8)
    requires |window| > 0 && !HigherOrEqual(seqnum, window[0].seqnum)
    ensures AckedCount(window, seqnum) == 0
  {
  }

  lemma AckStep(s: Sys, a: int, nb: nat, window: u5)
    requires Inv(s) && !s.left && a <= Got(s) && AckHarmless(s, a)
    ensures var t := s.(snd := OnAck(s.snd.(nb := nb), Previous(Wire(a)), window));
            && SenderOk(t) && DataOk(t) && InFlightOk(t)
            && Head(t) == if a > Head(s) then a else Head(s)
  {
    hide DataFor, Wire, HigherOrEqual, InFlightOk, DataOk, AcksOk, ReceiverOk, AckedCount, Wrapped, Previous;
    PreviousIsPredecessor(a);
    WindowNumbers(s);
    assert a <= Head(s) + |s.snd.window| by {
      DeliveredIsRead(s);
    }
    if a > Head(s) {
      AckedCountIsDistance(s.snd.window, Head(s), a);
    } else if s.snd.window != [] {
      assert s.snd.window[0].seqnum == Wire(Head(s) + 0);
      UncoveredHeadStays(s.snd.window, Previous(Wire(a)));
    }
    var k := AckedCount(s.snd.window, Previous(Wire(a)));
    WrappedInRange(s.snd.inWindow - k);
    var t := s.(snd := OnAck(s.snd.(nb := nb), Previous(Wire(a)), window));
    DataStaysOk(s, t);
    DroppingStaysGood(s, k, t);
  }

  /** A NACK sends again the packet before the one that the receiver awaits, if that is still in the window. */
  lemma NackFinds(s: Sys, a: int)
    requires SenderOk(s) && -224 <= a - Head(s) <= 256
    ensures Q.Locate(Q.NumbersOf(s.snd.window), 0, Previous(Wire(a)))
            == if Head(s) < a <= |s.read| then a - 1 - Head(s) else |s.snd.window|
  {
    var w, numbers := s.snd.window, Q.NumbersOf(s.snd.window);
    PreviousIsPredecessor(a);
    if |w| > 0 {
      SenderOkMeansWindowInvariant(s);
      WindowIsConsecutive(s.snd);
      FindInConsecutive(numbers, 0, Previous(Wire(a)));
      IndIsOffset(a - 1, Head(s));
    }
  }

  lemma NackStep(s: Sys, a: int, nb: nat, clock: u32, t: Sys)
    requires Inv(s) && !s.left
    requires var r := OnNack(s.snd.(nb := nb), Previous(Wire(a)), clock);
             && t == s.(snd := r.state, data := s.data + Sends(s, r.sent))
    ensures SenderOk(t) && DataOk(t) && InFlightOk(t) && Head(t) == Head(s)
  {
    hide DataFor, Wire, Q.Locate;
    var r := OnNack(s.snd.(nb := nb), Previous(Wire(a)), clock);
    var w := s.snd.window;
    var k := Q.Locate(Q.NumbersOf(w), 0, Previous(Wire(a)));
    if k < |w| {
      DataForAnyTime(s.read, Head(s) + k, w[k], clock);
      assert t.snd.window[k] == r.sent[0];
      SentStaysGood(s, t, r.sent);
    }
  }

  lemma TakeAckStep(s: Sys, a: Action)
    requires Inv(s) && a.TakeAck? && Enabled(s, a)
    ensures var t := After(s, a);
            && SenderOk(t) && DataOk(t) && InFlightOk(t)
            && Head(s) <= Head(t) <= Got(s) && (Head(t) == Head(s) || Head(t) == a.msg.n)
            && (SenderStep(s, a).sent != [] ==> Head(t) == Head(s))
  {
    hide Encoding, Decode, DataFor, AckPacket, OnAck, OnNack, Wire, Previous;
    var m, t := a.msg, After(s, a);
    assert AckFor(m.n, m.pkt) && 0 <= m.n <= Got(s);
    AckArrival(m.pkt, a.effect, a.rest, a.previous);
    var datagram := Arriving(a.effect, Encoding(m.pkt));
    var received := Decode(datagram + a.rest, a.previous);
    assert s.rcv == t.rcv && s.read == t.read && s.acks == t.acks;
    if a.effect == Intact {
      assert received == Accepted(m.pkt) && !m.pkt.tr;
      if m.pkt.ptype == ACK {
        AckStep(s, m.n, |datagram|, m.pkt.window as int);
        assert t == s.(snd := t.snd);
      } else {
        NackStep(s, m.n, |datagram|, a.clock, t);
      }
    } else {
      assert t == s.(snd := s.snd.(nb := |datagram|));
    }
  }

  // ---- every step, every run

  /** Where the two ends do not touch what a step changes. */
  lemma OtherEndWaits(s: Sys, a: Action)
    requires Offered(s, a)
    ensures a.TakeData? || a.Stop? ==> SenderStep(s, a) == SResult(s.snd, [])
    ensures !a.TakeData? && !a.Stop? ==> ReceiverStep(s, a) == RResult(s.rcv, [])
  {
  }

  lemma ReceiverMovesOn(s: Sys, a: Action)
    requires Inv(s) && Enabled(s, a) && (a.TakeData? || a.Stop?)
    ensures Inv(After(s, a))
  {
    hide Encoding, Decode, DataFor, AckFor, WindowOk, SenderStep, ReceiverStep;
    ReceiverStepIsGood(s, a);
    OtherEndWaits(s, a);
    var t := After(s, a);
    assert t.snd == s.snd && t.read == s.read && t.data == s.data && t.left == s.left;
    assert ReceiverOk(t) by {
      WindowOkDependsOn(s.(rcv := t.rcv), t);
    }
  }

  lemma WindowOkDependsOn(s: Sys, t: Sys)
    requires s.rcv == t.rcv && s.read == t.read
    ensures WindowOk(s) <==> WindowOk(t)
  {
  }

  lemma LongerReadKeepsWindow(s: Sys, t: Sys)
    requires WindowOk(s) && s.rcv == t.rcv && (t.read == s.read || exists chunk :: t.read == s.read + [chunk])
    ensures WindowOk(t)
  {
  }

  lemma SenderMovesOn(s: Sys, a: Action)
    requires Inv(s) && Enabled(s, a) && !a.TakeData? && !a.Stop?
    ensures Inv(After(s, a))
  {
    hide Encoding, Decode, DataFor, AckFor, WindowOk, SenderOk, InFlightOk, DataOk, SenderStep, ReceiverStep;
    OtherEndWaits(s, a);
    var t := After(s, a);
    match a {
      case Input(chunk, clock) => InputStep(s, chunk, clock);
      case Scan(clock, stamps) => ScanStep(s, clock, stamps);
      case Leave(clock) => LeaveStep(s, clock);
      case TakeAck(_, _, _, _, _) => TakeAckStep(s, a);
    }
    assert t.rcv == s.rcv && t.acks == s.acks;
    if s.rcv.status == Running {
      assert t.read == s.read || exists chunk :: t.read == s.read + [chunk];
      LongerReadKeepsWindow(s, t);
    }
  }

  /** Every step over a channel of bounded staleness keeps the invariant. */
  lemma StepKeepsInvariant(s: Sys, a: Action)
    requires Inv(s) && Enabled(s, a)
    ensures Inv(After(s, a))
  {
    if a.TakeData? || a.Stop? {
      ReceiverMovesOn(s, a);
    } else {
      SenderMovesOn(s, a);
    }
  }

  lemma HeadMoves(s: Sys, a: Action)
    requires Inv(s) && Enabled(s, a)
    ensures Head(s) <= Head(After(s, a))
    ensures Head(After(s, a)) == Head(s) || (a.TakeAck? && Head(After(s, a)) == a.msg.n)
    ensures Got(s) <= Got(After(s, a))
  {
    hide Encoding, Decode, DataFor, SenderStep, ReceiverStep, AckFor, WindowOk;
    OtherEndWaits(s, a);
    ReceiverStepIsGood(s, a);
    match a {
      case Input(chunk, clock) => InputStep(s, chunk, clock);
      case Scan(clock, stamps) => ScanStep(s, clock, stamps);
      case Leave(clock) => LeaveStep(s, clock);
      case TakeAck(_, _, _, _, _) => TakeAckStep(s, a);
      case TakeData(_, _, _) =>
      case Stop =>
    }
  }
}
