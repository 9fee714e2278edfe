/**
 The sender, the link and the receiver, joined by sockets that keep the order and may drop anything. When arrivals are
 timely, the whole is a run of the protocol; when the link has no jitter and reads a later time in each round of its
 loop, it is one over a FIFO channel.
 */
module Network {
  import opened Octets
  import opened Options
  import opened Packets
  import opened ReceiverSpec
  import opened Protocol
  import opened Runs
  import opened Fifo
  import opened MinQueues
  import opened LinkTime
  import opened Link

  /** The options of the link: how it treats packets, and in which directions. */
  datatype Settings = Settings(delay: nat, jitter: nat, lossRate: nat, cutRate: nat, errRate: nat, altered: set<int>)

  /** A packet as the link has written it out. */
  datatype Written = Written(msg: Msg, effect: Effect)

  /** A packet in the queue of the link, with the time at which it came. */
  datatype Item = Item(msg: Msg, effect: Effect, start: TimeVal, slot: PktSlot)

  /** What is under way in one direction: sent to the link, and written by the link, each oldest first. */
  datatype Line = Line(toLink: seq<Msg>, fromLink: seq<Written>)

  /** `taken` says that the link has taken a packet in this round of its loop. */
  datatype Net = Net(sys: Sys, forward: Line, back: Line, queue: seq<Item>, clock: TimeVal, taken: bool)

  datatype NetAction =
    | End(action: Action)
    | Round(now: TimeVal)
    | Deliver(i: nat)
    | Take(direction: int, throws: Throws)
    | DropToLink(direction: int, i: nat)
    | DropFromLink(direction: int, i: nat)

  predicate IsDirection(d: int) {
    d == LINK_FORWARD || d == LINK_REVERSE
  }

  function LineOf(n: Net, d: int): Line
    requires IsDirection(d)
  {
    if d == LINK_FORWARD then n.forward else n.back
  }

  function WithLine(n: Net, d: int, line: Line): Net
    requires IsDirection(d)
  {
    if d == LINK_FORWARD then n.(forward := line) else n.(back := line)
  }

  function Put(n: Net, d: int, w: Written): Net
    requires IsDirection(d)
  {
    var line := LineOf(n, d);
    WithLine(n, d, line.(fromLink := line.fromLink + [w]))
  }

  /** An end takes what the link has written first; it comes as the link has altered it. */
  predicate Comes(line: Line, m: Msg, e: Effect) {
    |line.fromLink| > 0 && line.fromLink[0] == Written(m, e)
  }

  ghost predicate NetEnabled(s: Settings, n: Net, a: NetAction) {
    match a
    case End(b) =>
      && Offered(n.sys, b)
      && (b.TakeData? ==> Comes(n.forward, b.msg, b.effect))
      && (b.TakeAck? ==> Comes(n.back, b.msg, b.effect))
    case Round(now) => Normalised(now) && !Later(n.clock, now)
    case Deliver(i) =>
      && i < |n.queue| && IsDirection(n.queue[i].slot.direction) && Later(n.clock, n.queue[i].slot.ts)
      && forall j :: 0 <= j < |n.queue| ==> !Later(n.queue[i].slot.ts, n.queue[j].slot.ts)
    case Take(d, _) => IsDirection(d) && !n.taken && |LineOf(n, d).toLink| > 0
    case DropToLink(d, i) => IsDirection(d) && i < |LineOf(n, d).toLink|
    case DropFromLink(d, i) => IsDirection(d) && i < |LineOf(n, d).fromLink|
  }

  /** The net when the link has read the first packet sent to it, but not yet decided about it. */
  function AfterTaking(n: Net, d: int): Net
    requires IsDirection(d) && |LineOf(n, d).toLink| > 0
  {
    var line := LineOf(n, d);
    WithLine(n, d, line.(toLink := line.toLink[1..])).(taken := true)
  }

  /** What the link does with the packet m; a direction that it does not alter is relayed. */
  function Taken(s: Settings, n: Net, d: int, t: Throws, m: Msg): Net
    requires IsDirection(d) && Usable(s.delay, s.jitter)
  {
    var datagram := Encoding(m.pkt);
    if d !in s.altered then Put(n, d, Written(m, Intact))
    else
      match Fate(s.lossRate, s.cutRate, s.errRate, t, |datagram|)
      case None => n
      case Some(e) =>
        FateApplies(s.lossRate, s.cutRate, s.errRate, t, datagram);
        if s.delay == 0 then Put(n, d, Written(m, e))
        else
          var ts := Expiry(n.clock, AppliedDelay(s.delay, s.jitter, t.delay));
          n.(queue := n.queue + [Item(m, e, n.clock, PktSlot(ts, d, Arriving(e, datagram)))])
  }

  ghost function NetAfter(s: Settings, n: Net, a: NetAction): Net
    requires Usable(s.delay, s.jitter) && NetEnabled(s, n, a)
  {
    match a
    case End(b) =>
      var fwd, back := n.forward, n.back;
      var replies := AnswerAll(|ReceiverStep(n.sys, b).state.written|, ReceiverStep(n.sys, b).replies);
      n.(sys := After(n.sys, b),
         forward := Line(fwd.toLink + LabelAll(n.sys, SenderStep(n.sys, b).sent),
                         if b.TakeData? then fwd.fromLink[1..] else fwd.fromLink),
         back := Line(back.toLink + replies, if b.TakeAck? then back.fromLink[1..] else back.fromLink))
    case Round(now) => n.(clock := now, taken := false)
    case Deliver(i) =>
      var item := n.queue[i];
      Put(n.(queue := n.queue[..i] + n.queue[i + 1..]), item.slot.direction, Written(item.msg, item.effect))
    case Take(d, t) =>
      Taken(s, AfterTaking(n, d), d, t, LineOf(n, d).toLink[0])
    case DropToLink(d, i) =>
      var line := LineOf(n, d);
      WithLine(n, d, line.(toLink := Without(line.toLink, i)))
    case DropFromLink(d, i) =>
      var line := LineOf(n, d);
      WithLine(n, d, line.(fromLink := line.fromLink[..i] + line.fromLink[i + 1..]))
  }

  function NetStart(clock: TimeVal): Net {
    Net(Start(), Line([], []), Line([], []), [], clock, false)
  }

  // ---- the FIFO channel that this is

  function Msgs(w: seq<Written>): (ms: seq<Msg>)
    ensures |ms| == |w| && forall i :: 0 <= i < |w| ==> ms[i] == w[i].msg
  {
    seq(|w|, i requires 0 <= i < |w| => w[i].msg)
  }

  /** The packets in the queue that go in the direction d. */
  function Toward(queue: seq<Item>, d: int): seq<Msg> {
    if |queue| == 0 then []
    else (if queue[0].slot.direction == d then [queue[0].msg] else []) + Toward(queue[1..], d)
  }

  function Channel(line: Line, queued: seq<Msg>): seq<Msg> {
    Msgs(line.fromLink) + queued + line.toLink
  }

  function AsFifo(n: Net): FifoSys {
    FifoSys(n.sys, Channel(n.forward, Toward(n.queue, LINK_FORWARD)), Channel(n.back, Toward(n.queue, LINK_REVERSE)))
  }

  function Lose(d: int, i: nat): FifoAction {
    if d == LINK_FORWARD then LoseData(i) else LoseAck(i)
  }

  /** What a step is on the FIFO channel: a step of an end, a loss, or nothing. */
  function FifoStep(s: Settings, n: Net, a: NetAction): Option<FifoAction>
    requires a.Take? || a.DropToLink? || a.DropFromLink? ==> IsDirection(a.direction)
    requires a.Take? ==> |LineOf(n, a.direction).toLink| > 0
  {
    match a
    case End(b) => Some(Do(b))
    case Take(d, t) =>
      var line := LineOf(n, d);
      if d in s.altered && Fate(s.lossRate, s.cutRate, s.errRate, t, |Encoding(line.toLink[0].pkt)|) == None
      then Some(Lose(d, |line.fromLink| + |Toward(n.queue, d)|))
      else None
    case DropToLink(d, i) => Some(Lose(d, |LineOf(n, d).fromLink| + |Toward(n.queue, d)| + i))
    case DropFromLink(d, i) => Some(Lose(d, i))
    case _ => None
  }

  // ---- what the link keeps

  ghost predicate ItemOk(s: Settings, x: Item) {
    && IsDirection(x.slot.direction) && x.slot.direction in s.altered && s.delay != 0
    && Applicable(x.effect, Encoding(x.msg.pkt)) && x.slot.buf == Arriving(x.effect, Encoding(x.msg.pkt))
    && x.slot.ts == Expiry(x.start, s.delay % 10000)
  }

  /** The queue holds the packets in the order of the times at which they came. */
  ghost predicate QueueOk(s: Settings, n: Net) {
    && (forall i :: 0 <= i < |n.queue| ==> ItemOk(s, n.queue[i]))
    && (forall i, j :: 0 <= i < j < |n.queue| ==> Later(n.queue[j].start, n.queue[i].start))
    && (forall i :: 0 <= i < |n.queue| ==>
          if n.taken then !Later(n.queue[i].start, n.clock) else Later(n.clock, n.queue[i].start))
  }

  ghost predicate LineOk(line: Line) {
    forall i :: 0 <= i < |line.fromLink| ==> Applicable(line.fromLink[i].effect, Encoding(line.fromLink[i].msg.pkt))
  }

  ghost predicate NetInv(s: Settings, n: Net) {
    Usable(s.delay, s.jitter) && s.jitter == 0 && QueueOk(s, n) && LineOk(n.forward) && LineOk(n.back)
  }

  lemma {:induction false} TowardAppended(queue: seq<Item>, x: Item, d: int)
    ensures Toward(queue + [x], d) == Toward(queue, d) + if x.slot.direction == d then [x.msg] else []
    decreases |queue|
  {
    TowardFirst(queue + [x], d);
    if |queue| == 0 {
      assert (queue + [x])[1..] == [];
    } else {
      TowardFirst(queue, d);
      hide Toward;
      assert (queue + [x])[1..] == queue[1..] + [x];
      TowardAppended(queue[1..], x, d);
    }
  }

  lemma {:induction false} NothingToward(queue: seq<Item>, d: int)
    requires forall i :: 0 <= i < |queue| ==> queue[i].slot.direction != d
    ensures Toward(queue, d) == []
    decreases |queue|
  {
    if |queue| > 0 {
      NothingToward(queue[1..], d);
    }
  }

  /** Only the first packet of the queue can be the one of earliest expiry. */
  lemma FirstIsDelivered(s: Settings, n: Net, i: nat)
    requires QueueOk(s, n) && NetEnabled(s, n, Deliver(i))
    ensures i == 0
  {
    if i > 0 {
      EqualDelaysKeepOrder(n.queue[i].start, n.queue[0].start, s.delay % 10000);
    }
  }

  // ---- what each step does to the channel

  lemma ChannelAtEnd(line: Line, queued: seq<Msg>, more: seq<Msg>, takes: bool)
    requires takes ==> |line.fromLink| > 0
    ensures var fromLink := if takes then line.fromLink[1..] else line.fromLink;
            var channel := Channel(line, queued);
            Channel(Line(line.toLink + more, fromLink), queued) == (if takes then channel[1..] else channel) + more
  {
    if takes {
      assert Msgs(line.fromLink)[1..] == Msgs(line.fromLink[1..]);
    }
  }

  /** The link writes out the packet that is next: the first in the queue, or the first sent to it if none is queued. */
  lemma ChannelAtWrite(line: Line, queued: seq<Msg>, w: Written, toLink: seq<Msg>)
    requires line.toLink == toLink
    ensures Channel(Line(toLink, line.fromLink + [w]), queued) == Channel(line, [w.msg] + queued)
    ensures Channel(Line(toLink, line.fromLink + [w]), []) == Channel(Line([w.msg] + toLink, line.fromLink), [])
  {
    assert Msgs(line.fromLink + [w]) == Msgs(line.fromLink) + [w.msg];
  }

  lemma ChannelAtLoss(line: Line, queued: seq<Msg>, i: nat)
    ensures i < |line.toLink| ==>
              Channel(line.(toLink := Without(line.toLink, i)), queued)
              == Without(Channel(line, queued), |line.fromLink| + |queued| + i)
    ensures i < |line.fromLink| ==>
              Channel(line.(fromLink := line.fromLink[..i] + line.fromLink[i + 1..]), queued)
              == Without(Channel(line, queued), i)
  {
    if i < |line.fromLink| {
      assert Msgs(line.fromLink[..i] + line.fromLink[i + 1..]) == Without(Msgs(line.fromLink), i);
    }
  }

  // ---- every step is one on the FIFO channel, or none

  /** The invariant holds after the step, which is this one on the FIFO channel. */
  ghost predicate Refines(s: Settings, n: Net, a: NetAction)
    requires Usable(s.delay, s.jitter) && NetEnabled(s, n, a)
  {
    && NetInv(s, NetAfter(s, n, a))
    && match FifoStep(s, n, a)
       case None => AsFifo(NetAfter(s, n, a)) == AsFifo(n)
       case Some(step) => FifoEnabled(AsFifo(n), step) && AsFifo(NetAfter(s, n, a)) == FifoAfter(AsFifo(n), step)
  }

  lemma EndRefines(s: Settings, n: Net, b: Action)
    requires NetInv(s, n) && NetEnabled(s, n, End(b))
    ensures Refines(s, n, End(b))
  {
    hide Encoding, Decode, Offered, After, SenderStep, ReceiverStep, ItemOk, Channel, Toward, Applicable, LabelAll,
         AnswerAll;
    var f, g := n.forward, n.back;
    var replies := AnswerAll(|ReceiverStep(n.sys, b).state.written|, ReceiverStep(n.sys, b).replies);
    ChannelAtEnd(f, Toward(n.queue, LINK_FORWARD), LabelAll(n.sys, SenderStep(n.sys, b).sent), b.TakeData?);
    ChannelAtEnd(g, Toward(n.queue, LINK_REVERSE), replies, b.TakeAck?);
    FirstOfChannel(f, Toward(n.queue, LINK_FORWARD));
    FirstOfChannel(g, Toward(n.queue, LINK_REVERSE));
  }

  lemma FirstOfChannel(line: Line, queued: seq<Msg>)
    ensures |line.fromLink| > 0 ==> |Channel(line, queued)| > 0 && Channel(line, queued)[0] == line.fromLink[0].msg
  {
  }

  lemma RoundRefines(s: Settings, n: Net, now: TimeVal)
    requires NetInv(s, n) && NetEnabled(s, n, Round(now)) && Later(now, n.clock)
    ensures Refines(s, n, Round(now))
  {
    hide Encoding, ItemOk, Applicable;
  }

  lemma DeliverRefines(s: Settings, n: Net, i: nat)
    requires NetInv(s, n) && NetEnabled(s, n, Deliver(i))
    ensures Refines(s, n, Deliver(i))
  {
    FirstIsDelivered(s, n, i);
    FirstItemIsOk(s, n);
    var x := n.queue[0];
    var d, m := x.slot.direction, n.(queue := n.queue[1..]);
    var line := LineOf(n, d);
    var after := Line(line.toLink, line.fromLink + [Written(x.msg, x.effect)]);
    DeliverLeaves(s, n);
    TailKeepsInv(s, n);
    LineOkAppended(line, x.msg, x.effect);
    LineKeepsInv(s, m, d, after);
    TowardFirst(n.queue, LINK_FORWARD);
    TowardFirst(n.queue, LINK_REVERSE);
    ChannelAtWrite(line, Toward(n.queue[1..], d), Written(x.msg, x.effect), line.toLink);
    AsFifoWithLine(m, d, after);
    hide NetInv, NetAfter, NetEnabled, Channel, Toward, Encoding, Applicable, ItemOk;
  }

  lemma FirstItemIsOk(s: Settings, n: Net)
    requires NetInv(s, n) && |n.queue| > 0
    ensures IsDirection(n.queue[0].slot.direction)
    ensures Applicable(n.queue[0].effect, Encoding(n.queue[0].msg.pkt))
    ensures LineOk(LineOf(n, n.queue[0].slot.direction))
  {
    hide Encoding, Applicable;
    assert ItemOk(s, n.queue[0]);
  }

  lemma DeliverLeaves(s: Settings, n: Net)
    requires Usable(s.delay, s.jitter) && NetEnabled(s, n, Deliver(0))
    ensures var x := n.queue[0];
            var line := LineOf(n, x.slot.direction);
            NetAfter(s, n, Deliver(0))
            == WithLine(n.(queue := n.queue[1..]), x.slot.direction,
                        Line(line.toLink, line.fromLink + [Written(x.msg, x.effect)]))
  {
    hide Later;
    assert n.queue[..0] + n.queue[1..] == n.queue[1..];
  }

  lemma TailKeepsInv(s: Settings, n: Net)
    requires NetInv(s, n) && |n.queue| > 0
    ensures NetInv(s, n.(queue := n.queue[1..]))
  {
    hide ItemOk, LineOk, Later;
  }

  lemma LineOkAppended(line: Line, m: Msg, e: Effect)
    requires LineOk(line) && Applicable(e, Encoding(m.pkt))
    ensures LineOk(Line(line.toLink, line.fromLink + [Written(m, e)]))
  {
    hide Encoding, Applicable;
  }

  lemma LineKeepsInv(s: Settings, n: Net, d: int, line: Line)
    requires NetInv(s, n) && IsDirection(d) && LineOk(line)
    ensures NetInv(s, WithLine(n, d, line))
  {
    hide ItemOk, LineOk, Later;
  }

  lemma AsFifoWithLine(n: Net, d: int, line: Line)
    requires IsDirection(d)
    ensures var f, channel := AsFifo(n), Channel(line, Toward(n.queue, d));
            AsFifo(WithLine(n, d, line)) == if d == LINK_FORWARD then f.(forward := channel) else f.(back := channel)
  {
    hide Channel, Toward;
  }


  lemma TowardFirst(queue: seq<Item>, d: int)
    requires |queue| > 0
    ensures Toward(queue, d)
            == if queue[0].slot.direction == d then [queue[0].msg] + Toward(queue[1..], d) else Toward(queue[1..], d)
  {
  }

  /** The link writes a packet out as soon as it has taken it. */
  lemma RelayRefines(s: Settings, n: Net, d: int, t: Throws, e: Effect)
    requires NetInv(s, n) && NetEnabled(s, n, Take(d, t))
    requires var m := LineOf(n, d).toLink[0];
             && Applicable(e, Encoding(m.pkt)) && (d !in s.altered || s.delay == 0)
             && Taken(s, AfterTaking(n, d), d, t, m) == Put(AfterTaking(n, d), d, Written(m, e))
    requires FifoStep(s, n, Take(d, t)) == None
    ensures Refines(s, n, Take(d, t))
  {
    hide Encoding, Applicable, Channel, Toward, Later, Expiry, Msgs, Taken, FifoStep;
    var line := LineOf(n, d);
    NothingToward(n.queue, d);
    assert line.toLink == [line.toLink[0]] + line.toLink[1..];
    ChannelAtWrite(line.(toLink := line.toLink[1..]), [], Written(line.toLink[0], e), line.toLink[1..]);
    TakenQueueOk(s, n);
  }

  lemma TakenQueueOk(s: Settings, n: Net)
    requires QueueOk(s, n) && !n.taken
    ensures QueueOk(s, n.(taken := true))
  {
    hide ItemOk;
  }

  lemma LossRefines(s: Settings, n: Net, d: int, t: Throws)
    requires NetInv(s, n) && NetEnabled(s, n, Take(d, t))
    requires Taken(s, AfterTaking(n, d), d, t, LineOf(n, d).toLink[0]) == AfterTaking(n, d)
    requires FifoStep(s, n, Take(d, t)) == Some(Lose(d, |LineOf(n, d).fromLink| + |Toward(n.queue, d)|))
    ensures Refines(s, n, Take(d, t))
  {
    hide Encoding, Applicable, Channel, Toward, Later, Expiry, Msgs, Taken, FifoStep, ItemOk;
    var line := LineOf(n, d);
    ChannelAtLoss(line, Toward(n.queue, d), 0);
    ChannelLength(line, Toward(n.queue, d));
    assert Without(line.toLink, 0) == line.toLink[1..];
    TakenQueueOk(s, n);
  }

  /** The link keeps a packet that it delays behind all that it has kept before. */
  lemma EnqueueRefines(s: Settings, n: Net, d: int, t: Throws, x: Item)
    requires NetInv(s, n) && NetEnabled(s, n, Take(d, t))
    requires x.msg == LineOf(n, d).toLink[0] && x.slot.direction == d && x.start == n.clock && ItemOk(s, x)
    requires Taken(s, AfterTaking(n, d), d, t, x.msg) == AfterTaking(n, d).(queue := n.queue + [x])
    requires FifoStep(s, n, Take(d, t)) == None
    ensures Refines(s, n, Take(d, t))
  {
    hide Encoding, Applicable, Channel, Toward, Expiry, Msgs, Taken, FifoStep, ItemOk;
    var line := LineOf(n, d);
    TowardAppended(n.queue, x, LINK_FORWARD);
    TowardAppended(n.queue, x, LINK_REVERSE);
    ChannelAtQueue(line, Toward(n.queue, d));
    ChannelAtNothing(n.forward, Toward(n.queue, LINK_FORWARD));
    ChannelAtNothing(n.back, Toward(n.queue, LINK_REVERSE));
  }

  lemma ChannelAtQueue(line: Line, queued: seq<Msg>)
    requires |line.toLink| > 0
    ensures Channel(line.(toLink := line.toLink[1..]), queued + [line.toLink[0]]) == Channel(line, queued)
  {
    assert line.toLink == [line.toLink[0]] + line.toLink[1..];
  }

  lemma ChannelAtNothing(line: Line, queued: seq<Msg>)
    ensures Channel(line, queued + []) == Channel(line, queued)
  {
    assert queued + [] == queued;
  }

  lemma TakeRefines(s: Settings, n: Net, d: int, t: Throws)
    requires NetInv(s, n) && NetEnabled(s, n, Take(d, t))
    ensures Refines(s, n, Take(d, t))
  {
    hide Encoding, Applicable, Fate, Expiry, AppliedDelay, Arriving, Refines, Toward, QueueOk, LineOk;
    var m, rest := LineOf(n, d).toLink[0], AfterTaking(n, d);
    var datagram := Encoding(m.pkt);
    EncodingIsNotEmpty(m.pkt);
    if d !in s.altered {
      IntactApplies(datagram);
      RelayRefines(s, n, d, t, Intact);
    } else {
      match Fate(s.lossRate, s.cutRate, s.errRate, t, |datagram|)
      case None => LossRefines(s, n, d, t);
      case Some(e) =>
        FateApplies(s.lossRate, s.cutRate, s.errRate, t, datagram);
        if s.delay == 0 {
          RelayRefines(s, n, d, t, e);
        } else {
          NoJitterMeansDelay(s.delay, t.delay);
          var ts := Expiry(n.clock, AppliedDelay(s.delay, s.jitter, t.delay));
          EnqueueRefines(s, n, d, t, Item(m, e, n.clock, PktSlot(ts, d, Arriving(e, datagram))));
        }
    }
  }

  lemma DropRefines(s: Settings, n: Net, a: NetAction)
    requires NetInv(s, n) && NetEnabled(s, n, a) && (a.DropToLink? || a.DropFromLink?)
    ensures Refines(s, n, a)
  {
    hide NetInv, NetAfter, Channel, Toward, Encoding, Applicable, ItemOk, Without;
    var d := a.direction;
    var line, queued := LineOf(n, d), Toward(n.queue, d);
    var after := if a.DropToLink? then line.(toLink := Without(line.toLink, a.i))
                 else line.(fromLink := line.fromLink[..a.i] + line.fromLink[a.i + 1..]);
    LineOfIsOk(s, n, d);
    DropLeaves(s, n, a);
    ChannelAtLoss(line, queued, a.i);
    ChannelLength(line, queued);
    ShorterLineIsOk(line, after, a.i);
    LineKeepsInv(s, n, d, after);
    AsFifoWithLine(n, d, after);
  }

  lemma LineOfIsOk(s: Settings, n: Net, d: int)
    requires NetInv(s, n) && IsDirection(d)
    ensures Usable(s.delay, s.jitter) && LineOk(LineOf(n, d))
  {
    hide LineOk, ItemOk, Later;
  }

  lemma DropLeaves(s: Settings, n: Net, a: NetAction)
    requires Usable(s.delay, s.jitter) && NetEnabled(s, n, a) && (a.DropToLink? || a.DropFromLink?)
    ensures var line := LineOf(n, a.direction);
            NetAfter(s, n, a)
            == WithLine(n, a.direction,
                        if a.DropToLink? then line.(toLink := Without(line.toLink, a.i))
                        else line.(fromLink := line.fromLink[..a.i] + line.fromLink[a.i + 1..]))
  {
  }

  lemma ShorterLineIsOk(line: Line, after: Line, i: nat)
    requires LineOk(line)
    requires after.fromLink == line.fromLink
             || (i < |line.fromLink| && after.fromLink == line.fromLink[..i] + line.fromLink[i + 1..])
    ensures LineOk(after)
  {
    hide Encoding, Applicable;
  }


  lemma ChannelLength(line: Line, queued: seq<Msg>)
    ensures |Channel(line, queued)| == |line.fromLink| + |queued| + |line.toLink|
  {
  }

  lemma StepRefines(s: Settings, n: Net, a: NetAction)
    requires NetInv(s, n) && NetEnabled(s, n, a) && (a.Round? ==> Later(a.now, n.clock))
    ensures Refines(s, n, a)
  {
    hide Refines, NetInv, NetEnabled;
    match a
    case End(b) => EndRefines(s, n, b);
    case Round(now) => RoundRefines(s, n, now);
    case Deliver(i) => DeliverRefines(s, n, i);
    case Take(d, t) => TakeRefines(s, n, d, t);
    case _ => DropRefines(s, n, a);
  }

  // ---- runs

  /** Steps of the net, from any state. */
  ghost predicate IsNetPath(s: Settings, states: seq<Net>, actions: seq<NetAction>) {
    && Usable(s.delay, s.jitter) && |states| == |actions| + 1
    && forall i {:trigger actions[i]} :: 0 <= i < |actions| ==>
         NetEnabled(s, states[i], actions[i]) && states[i + 1] == NetAfter(s, states[i], actions[i])
  }

  /** A run of the net. */
  ghost predicate IsNetRun(s: Settings, states: seq<Net>, actions: seq<NetAction>) {
    IsNetPath(s, states, actions) && Normalised(states[0].clock) && states[0] == NetStart(states[0].clock)
  }

  /** The link reads a later time in each round of its loop. */
  ghost predicate ClockMovesOn(states: seq<Net>, actions: seq<NetAction>)
    requires |actions| <= |states|
  {
    forall i {:trigger actions[i]} :: 0 <= i < |actions| && actions[i].Round? ==> Later(actions[i].now, states[i].clock)
  }

  /** No old packet arrives whole at a time when it does harm. */
  ghost predicate ArrivalsAreTimely(states: seq<Net>, actions: seq<NetAction>)
    requires |actions| <= |states|
  {
    forall i {:trigger actions[i]} :: 0 <= i < |actions| && actions[i].End? ==> Timely(states[i].sys, actions[i].action)
  }

  lemma NetRunStep(s: Settings, states: seq<Net>, actions: seq<NetAction>, i: nat)
    requires IsNetRun(s, states, actions) && i < |actions|
    ensures Usable(s.delay, s.jitter) && NetEnabled(s, states[i], actions[i])
    ensures states[i + 1] == NetAfter(s, states[i], actions[i])
  {
  }

  lemma NetRunBegins(s: Settings, states: seq<Net>, actions: seq<NetAction>)
    requires IsNetRun(s, states, actions)
    ensures |states| == |actions| + 1 && states[0].sys == Start() && AsFifo(states[0]) == FifoStart()
    ensures AllCarried(states[0]) && (s.jitter == 0 ==> NetInv(s, states[0]))
    ensures IsRun([Start()], []) && IsFifoRun([FifoStart()], [])
  {
    NothingToward([], LINK_FORWARD);
    NothingToward([], LINK_REVERSE);
  }

  /** Without jitter, every run of the net, up to any of its states, is a run over a FIFO channel. */
  lemma {:induction false} NetRefines(s: Settings, states: seq<Net>, actions: seq<NetAction>, k: nat)
    returns (fifo: seq<FifoSys>, steps: seq<FifoAction>)
    requires IsNetRun(s, states, actions) && k <= |actions| && s.jitter == 0 && ClockMovesOn(states, actions)
    ensures NetInv(s, states[k])
    ensures IsFifoRun(fifo, steps) && |fifo| == |steps| + 1 && fifo[|steps|] == AsFifo(states[k])
    decreases k
  {
    hide *;
    NetRunBegins(s, states, actions);
    if k == 0 {
      fifo, steps := [FifoStart()], [];
    } else {
      fifo, steps := NetRefines(s, states, actions, k - 1);
      var n, a := states[k - 1], actions[k - 1];
      NetRunStep(s, states, actions, k - 1);
      RoundMovesOn(states, actions, k - 1);
      var step := StepOnFifo(s, n, a);
      if step.Some? {
        FifoRunExtended(fifo, steps, step.value);
        fifo, steps := fifo + [FifoAfter(AsFifo(n), step.value)], steps + [step.value];
      }
    }
  }

  lemma StepOnFifo(s: Settings, n: Net, a: NetAction) returns (step: Option<FifoAction>)
    requires NetInv(s, n) && NetEnabled(s, n, a) && (a.Round? ==> Later(a.now, n.clock))
    ensures Usable(s.delay, s.jitter) && NetInv(s, NetAfter(s, n, a))
    ensures if step == None then AsFifo(NetAfter(s, n, a)) == AsFifo(n)
            else FifoEnabled(AsFifo(n), step.value) && AsFifo(NetAfter(s, n, a)) == FifoAfter(AsFifo(n), step.value)
  {
    hide NetEnabled, NetAfter, FifoEnabled, FifoAfter, AsFifo, FifoStep, QueueOk, LineOk;
    StepRefines(s, n, a);
    StepIsOfDirection(s, n, a);
    step := FifoStep(s, n, a);
  }

  lemma FifoRunExtended(run: seq<FifoSys>, steps: seq<FifoAction>, a: FifoAction)
    requires IsFifoRun(run, steps) && FifoEnabled(run[|steps|], a)
    ensures var g := FifoAfter(run[|steps|], a);
            IsFifoRun(run + [g], steps + [a]) && (run + [g])[|steps + [a]|] == g
  {
    var f := run[|steps|];
    FifoPathOfOne(f, a);
    FifoPathsJoin(run, steps, [f, FifoAfter(f, a)], [a]);
    hide FifoEnabled, FifoAfter;
    assert [f, FifoAfter(f, a)][1..] == [FifoAfter(f, a)];
  }

  lemma StepIsOfDirection(s: Settings, n: Net, a: NetAction)
    requires NetEnabled(s, n, a)
    ensures a.Take? || a.DropToLink? || a.DropFromLink? ==> IsDirection(a.direction)
    ensures a.Take? ==> |LineOf(n, a.direction).toLink| > 0
  {
  }

  /** With any jitter, every run of the net in which arrivals are timely is a run of the protocol. */
  lemma {:induction false} NetIsRun(s: Settings, states: seq<Net>, actions: seq<NetAction>, k: nat)
    returns (run: seq<Sys>, steps: seq<Action>)
    requires IsNetRun(s, states, actions) && k <= |actions| && ArrivalsAreTimely(states, actions)
    ensures IsRun(run, steps) && |run| == |steps| + 1 && run[|steps|] == states[k].sys
    decreases k
  {
    hide *;
    NetRunBegins(s, states, actions);
    if k == 0 {
      run, steps := [Start()], [];
    } else {
      run, steps := NetIsRun(s, states, actions, k - 1);
      NetRunStep(s, states, actions, k - 1);
      var n, a := states[k - 1], actions[k - 1];
      SysAfterStep(s, n, a);
      if a.End? {
        EndIsTimely(states, actions, k - 1);
        RunExtended(run, steps, a.action);
        run, steps := run + [After(n.sys, a.action)], steps + [a.action];
      }
    }
  }

  lemma EndIsTimely(states: seq<Net>, actions: seq<NetAction>, i: nat)
    requires i < |actions| < |states| && ArrivalsAreTimely(states, actions)
    requires actions[i].End? && Offered(states[i].sys, actions[i].action)
    ensures Enabled(states[i].sys, actions[i].action)
  {
    hide Offered, Timely;
  }

  lemma RoundMovesOn(states: seq<Net>, actions: seq<NetAction>, i: nat)
    requires i < |actions| < |states| && ClockMovesOn(states, actions)
    ensures actions[i].Round? ==> Later(actions[i].now, states[i].clock)
  {
  }

  lemma SysAfterStep(s: Settings, n: Net, a: NetAction)
    requires Usable(s.delay, s.jitter) && NetEnabled(s, n, a)
    ensures a.End? ==> Offered(n.sys, a.action)
    ensures NetAfter(s, n, a).sys == if a.End? then After(n.sys, a.action) else n.sys
  {
    hide Offered, After, Encoding, Fate, Expiry, AppliedDelay, SenderStep, ReceiverStep;
  }

  /**
   Through the link, with any rates, delay and jitter, and whatever it drops, cuts or corrupts: when there is no jitter
   and its clock moves on, or when arrivals are timely, the output is always a prefix of the input, and all of it when
   the sender has left or the closing packet has stopped the receiver.
   */
  lemma NetSafety(s: Settings, states: seq<Net>, actions: seq<NetAction>, k: nat)
    requires IsNetRun(s, states, actions) && k <= |actions|
    requires (s.jitter == 0 && ClockMovesOn(states, actions)) || ArrivalsAreTimely(states, actions)
    ensures var t := states[k].sys;
            && t.rcv.written <= t.read && Flatten(t.rcv.written) <= Flatten(t.read)
            && t.rcv.status != Overrun
            && (t.left || t.rcv.status == Closed ==> t.rcv.written == t.read)
  {
    hide NetInv, ClockMovesOn, ArrivalsAreTimely;
    if ArrivalsAreTimely(states, actions) {
      var run, steps := NetIsRun(s, states, actions, k);
      Safety(run, steps, |steps|);
      Completeness(run, steps, |steps|);
    } else {
      var fifo, steps := NetRefines(s, states, actions, k);
      FifoSafety(fifo, steps);
    }
  }

  // ---- nothing that comes is left out

  /** A packet under way in the direction d was sent, and the link's effect on it is one that it can have. */
  predicate Carried(sys: Sys, d: int, m: Msg, e: Effect) {
    Applicable(e, Encoding(m.pkt)) && if d == LINK_FORWARD then m in sys.data else m in sys.acks
  }

  ghost predicate LineCarried(sys: Sys, d: int, line: Line) {
    && (forall i :: 0 <= i < |line.toLink| ==> Carried(sys, d, line.toLink[i], Intact))
    && (forall i :: 0 <= i < |line.fromLink| ==> Carried(sys, d, line.fromLink[i].msg, line.fromLink[i].effect))
  }

  ghost predicate AllCarried(n: Net) {
    && LineCarried(n.sys, LINK_FORWARD, n.forward) && LineCarried(n.sys, LINK_REVERSE, n.back)
    && forall i :: 0 <= i < |n.queue| ==>
         IsDirection(n.queue[i].slot.direction)
         && Carried(n.sys, n.queue[i].slot.direction, n.queue[i].msg, n.queue[i].effect)
  }

  lemma EndCarries(s: Settings, n: Net, b: Action)
    requires Usable(s.delay, s.jitter) && NetEnabled(s, n, End(b)) && AllCarried(n)
    ensures AllCarried(NetAfter(s, n, End(b)))
  {
    hide Encoding, Decode, Offered, SenderStep, ReceiverStep, Label;
    var t := After(n.sys, b);
    var sent := SenderStep(n.sys, b).sent;
    forall i | 0 <= i < |sent|
      ensures Msg(Label(n.sys, sent[i]), sent[i]) in t.data
    {
    }
    assert forall m, d, e :: Carried(n.sys, d, m, e) ==> Carried(t, d, m, e);
  }

  lemma LineCarries(n: Net, d: int, line: Line)
    requires AllCarried(n) && IsDirection(d) && LineCarried(n.sys, d, line)
    ensures AllCarried(WithLine(n, d, line))
  {
    hide Carried, LineCarried;
  }

  lemma PutCarries(n: Net, d: int, w: Written)
    requires AllCarried(n) && IsDirection(d) && Carried(n.sys, d, w.msg, w.effect)
    ensures AllCarried(Put(n, d, w))
  {
    var line := LineOf(n, d);
    assert LineCarried(n.sys, d, line.(fromLink := line.fromLink + [w])) by {
      hide Carried;
    }
    hide Carried, LineCarried, AllCarried, WithLine;
    LineCarries(n, d, line.(fromLink := line.fromLink + [w]));
  }

  lemma DropCarries(s: Settings, n: Net, a: NetAction)
    requires Usable(s.delay, s.jitter) && NetEnabled(s, n, a) && AllCarried(n) && (a.DropToLink? || a.DropFromLink?)
    ensures AllCarried(NetAfter(s, n, a))
  {
    hide AllCarried, LineCarried, NetAfter;
    var line := LineOf(n, a.direction);
    var after := if a.DropToLink? then line.(toLink := Without(line.toLink, a.i))
                 else line.(fromLink := line.fromLink[..a.i] + line.fromLink[a.i + 1..]);
    LineOfIsCarried(n, a.direction);
    ShorterLineIsCarried(n.sys, a.direction, line, after, a.i);
    DropLeaves(s, n, a);
    hide *;
    LineCarries(n, a.direction, after);
  }

  lemma LineOfIsCarried(n: Net, d: int)
    requires AllCarried(n) && IsDirection(d)
    ensures LineCarried(n.sys, d, LineOf(n, d))
  {
    hide LineCarried;
  }

  lemma ShorterLineIsCarried(sys: Sys, d: int, line: Line, after: Line, i: nat)
    requires LineCarried(sys, d, line)
    requires (i < |line.toLink| && after == line.(toLink := Without(line.toLink, i)))
             || (i < |line.fromLink| && after == line.(fromLink := line.fromLink[..i] + line.fromLink[i + 1..]))
    ensures LineCarried(sys, d, after)
  {
    hide Carried;
  }

  lemma DeliverCarries(s: Settings, n: Net, i: nat)
    requires Usable(s.delay, s.jitter) && NetEnabled(s, n, Deliver(i)) && AllCarried(n)
    ensures AllCarried(NetAfter(s, n, Deliver(i)))
  {
    var x := n.queue[i];
    var m := n.(queue := n.queue[..i] + n.queue[i + 1..]);
    assert AllCarried(m) && Carried(n.sys, x.slot.direction, x.msg, x.effect) by {
      hide Carried, LineCarried, Later;
    }
    hide Carried, LineCarried, AllCarried, Put, Later;
    PutCarries(m, x.slot.direction, Written(x.msg, x.effect));
  }

  lemma RoundCarries(n: Net, clock: TimeVal, taken: bool)
    requires AllCarried(n)
    ensures AllCarried(n.(clock := clock, taken := taken))
  {
    hide Carried, LineCarried;
  }

  lemma TakenCarries(n: Net, d: int)
    requires AllCarried(n) && IsDirection(d) && |LineOf(n, d).toLink| > 0
    ensures AllCarried(AfterTaking(n, d)) && Carried(n.sys, d, LineOf(n, d).toLink[0], Intact)
  {
    var line := LineOf(n, d);
    var after := line.(toLink := line.toLink[1..]);
    assert LineCarried(n.sys, d, after) && Carried(n.sys, d, line.toLink[0], Intact) by {
      hide Carried;
    }
    hide Carried, LineCarried, AllCarried, WithLine;
    LineCarries(n, d, after);
    RoundCarries(WithLine(n, d, after), n.clock, true);
    TakingLeavesClock(n, d, after);
  }

  lemma TakingLeavesClock(n: Net, d: int, after: Line)
    requires IsDirection(d)
    ensures WithLine(n, d, after).clock == n.clock && WithLine(n, d, after).sys == n.sys
  {
  }

  lemma QueuedCarries(n: Net, x: Item)
    requires AllCarried(n) && IsDirection(x.slot.direction) && Carried(n.sys, x.slot.direction, x.msg, x.effect)
    ensures AllCarried(n.(queue := n.queue + [x]))
  {
    hide Carried, LineCarried;
  }

  lemma TakeCarries(s: Settings, n: Net, d: int, t: Throws)
    requires Usable(s.delay, s.jitter) && NetEnabled(s, n, Take(d, t)) && AllCarried(n)
    ensures AllCarried(NetAfter(s, n, Take(d, t)))
  {
    hide Encoding, Expiry, AppliedDelay, Arriving, Fate, Applicable, AllCarried, Put, WithLine, Later;
    var m, rest := LineOf(n, d).toLink[0], AfterTaking(n, d);
    var datagram := Encoding(m.pkt);
    TakenCarries(n, d);
    TakingLeavesClock(n, d, LineOf(n, d).(toLink := LineOf(n, d).toLink[1..]));
    EncodingIsNotEmpty(m.pkt);
    if d !in s.altered {
      PutCarries(rest, d, Written(m, Intact));
    } else if Fate(s.lossRate, s.cutRate, s.errRate, t, |datagram|).Some? {
      var e := Fate(s.lossRate, s.cutRate, s.errRate, t, |datagram|).value;
      FateApplies(s.lossRate, s.cutRate, s.errRate, t, datagram);
      if s.delay == 0 {
        PutCarries(rest, d, Written(m, e));
      } else {
        var ts := Expiry(rest.clock, AppliedDelay(s.delay, s.jitter, t.delay));
        QueuedCarries(rest, Item(m, e, rest.clock, PktSlot(ts, d, Arriving(e, datagram))));
      }
    }
  }

  lemma OtherStepsCarry(s: Settings, n: Net, a: NetAction)
    requires Usable(s.delay, s.jitter) && NetEnabled(s, n, a) && AllCarried(n) && !a.End? && !a.Take?
    ensures AllCarried(NetAfter(s, n, a))
  {
    hide AllCarried, NetEnabled;
    match a
    case Round(now) => RoundCarries(n, now, false);
    case Deliver(i) => DeliverCarries(s, n, i);
    case _ => DropCarries(s, n, a);
  }

  lemma {:induction false} NetCarries(s: Settings, states: seq<Net>, actions: seq<NetAction>, k: nat)
    requires IsNetRun(s, states, actions) && k <= |actions|
    ensures AllCarried(states[k])
    decreases k
  {
    hide *;
    NetRunBegins(s, states, actions);
    if k > 0 {
      NetCarries(s, states, actions, k - 1);
      NetRunStep(s, states, actions, k - 1);
      StepCarries(s, states[k - 1], actions[k - 1]);
    }
  }

  lemma StepCarries(s: Settings, n: Net, a: NetAction)
    requires Usable(s.delay, s.jitter) && NetEnabled(s, n, a) && AllCarried(n)
    ensures AllCarried(NetAfter(s, n, a))
  {
    hide *;
    match a
    case End(b) => EndCarries(s, n, b);
    case Take(d, t) => TakeCarries(s, n, d, t);
    case _ => OtherStepsCarry(s, n, a);
  }


  /** In every run an end that still listens can take what the link has written first, as it comes. */
  lemma WhatComesCanBeTaken(s: Settings, states: seq<Net>, actions: seq<NetAction>, k: nat,
                            previous: u16, rest: seq<Octet>, clock: u32)
    requires IsNetRun(s, states, actions) && k <= |actions|
    ensures var n := states[k];
            && (n.sys.rcv.status == Running && |n.forward.fromLink| > 0 ==>
                  var w := n.forward.fromLink[0];
                  NetEnabled(s, n, End(TakeData(w.msg, w.effect, previous))))
            && (!n.sys.left && |n.back.fromLink| > 0 ==>
                  var w := n.back.fromLink[0];
                  && Applicable(w.effect, Encoding(w.msg.pkt))
                  && (|Arriving(w.effect, Encoding(w.msg.pkt)) + rest| == 12 ==>
                        NetEnabled(s, n, End(TakeAck(w.msg, w.effect, rest, previous, clock)))))
  {
    hide Encoding, Arriving, Applicable;
    NetCarries(s, states, actions, k);
    var n := states[k];
    assert |n.forward.fromLink| > 0 ==>
        Carried(n.sys, LINK_FORWARD, n.forward.fromLink[0].msg, n.forward.fromLink[0].effect);
    assert |n.back.fromLink| > 0 ==>
        Carried(n.sys, LINK_REVERSE, n.back.fromLink[0].msg, n.back.fromLink[0].effect);
  }

  // ---- the link's own loop takes these steps

  /** The step that takes a packet does to the net what `LinkSim.Dealt` says of the link; or the packet is relayed. */
  lemma TakeIsSimulate(s: Settings, n: Net, d: int, t: Throws)
    requires Usable(s.delay, s.jitter) && NetEnabled(s, n, Take(d, t))
    ensures var u, before, after := NetAfter(s, n, Take(d, t)), LineOf(n, d), LineOf(NetAfter(s, n, Take(d, t)), d);
            var m := before.toLink[0];
            && u == WithLine(n, d, after).(queue := u.queue, taken := true) && after.toLink == before.toLink[1..]
            && if d !in s.altered then
                 u.queue == n.queue && after.fromLink == before.fromLink + [Written(m, Intact)]
               else if t.loss < s.lossRate then
                 u.queue == n.queue && after.fromLink == before.fromLink
               else
                 exists e :: Applicable(e, Encoding(m.pkt))
                   && IsAltered(Encoding(m.pkt), s.cutRate, s.errRate, t, Arriving(e, Encoding(m.pkt)))
                   && if s.delay == 0 then
                        u.queue == n.queue && after.fromLink == before.fromLink + [Written(m, e)]
                      else
                        var ts := Expiry(n.clock, AppliedDelay(s.delay, s.jitter, t.delay));
                        && after.fromLink == before.fromLink
                        && u.queue == n.queue + [Item(m, e, n.clock, PktSlot(ts, d, Arriving(e, Encoding(m.pkt))))]
  {
    hide Encoding, Expiry, AppliedDelay, Arriving, Fate, Applicable, IsAltered, Usable, Later;
    var m := LineOf(n, d).toLink[0];
    EncodingIsNotEmpty(m.pkt);
    LossLaw(s.lossRate, s.cutRate, s.errRate, t, Encoding(m.pkt));
  }

  function SlotsOf(queue: seq<Item>): (slots: seq<PktSlot>)
    ensures |slots| == |queue| && forall i :: 0 <= i < |slots| ==> slots[i] == queue[i].slot
  {
    seq(|queue|, i requires 0 <= i < |queue| => queue[i].slot)
  }

  lemma QueueIsOrdered(s: Settings, n: Net)
    requires QueueOk(s, n)
    ensures Ordered(SlotsOf(n.queue))
  {
    forall i, j | 0 <= i < j < |n.queue|
      ensures Later(n.queue[j].slot.ts, n.queue[i].slot.ts)
    {
      assert ItemOk(s, n.queue[i]) && ItemOk(s, n.queue[j]);
      EqualDelaysKeepOrder(n.queue[j].start, n.queue[i].start, s.delay % 10000);
    }
  }

  lemma BagOfFirst(slots: seq<PktSlot>)
    requires |slots| > 0
    ensures Bag(slots) == multiset{slots[0]} + Bag(slots[1..]) && Bag(slots) - multiset{slots[0]} == Bag(slots[1..])
  {
    assert slots == [slots[0]] + slots[1..];
  }

  lemma SentFirstIsLeast(clock: TimeVal, before: multiset<PktSlot>, now: multiset<PktSlot>, sent: seq<PktSlot>)
    requires DrainedInOrder(clock, before, now, sent) && |sent| > 0
    ensures sent[0] in before && Later(clock, sent[0].ts)
    ensures forall x :: x in before ==> !Later(sent[0].ts, x.ts)
  {
    hide Later;
    var p := sent[0];
    assert p in sent && p in now + Bag(sent);
    LaterIsStrictWeakOrder(p.ts, p.ts, p.ts);
    forall x | x in before
      ensures !Later(p.ts, x.ts)
    {
      assert x in now + Bag(sent);
    }
  }

  lemma DrainGoesOnAfterFirst(clock: TimeVal, before: multiset<PktSlot>, now: multiset<PktSlot>, sent: seq<PktSlot>)
    requires DrainedInOrder(clock, before, now, sent) && |sent| > 0
    ensures DrainedInOrder(clock, before - multiset{sent[0]}, now, sent[1..])
  {
    hide Later;
    BagOfFirst(sent);
  }

  lemma DrainBegins(clock: TimeVal, slots: seq<PktSlot>, now: multiset<PktSlot>, sent: seq<PktSlot>)
    requires Ordered(slots) && DrainedInOrder(clock, Bag(slots), now, sent) && |sent| > 0
    ensures |slots| > 0 && sent[0] == slots[0] && Later(clock, slots[0].ts)
    ensures DrainedInOrder(clock, Bag(slots[1..]), now, sent[1..])
  {
    SentFirstIsLeast(clock, Bag(slots), now, sent);
    DrainGoesOnAfterFirst(clock, Bag(slots), now, sent);
    hide Ordered, DrainedInOrder, Later;
    assert slots[0..] == slots;
    assert sent[0] in slots;
    LeastIsFirst(slots, 0, sent[0]);
    BagOfFirst(slots);
  }

  lemma {:induction false} DrainedAreFirst(clock: TimeVal, slots: seq<PktSlot>, now: multiset<PktSlot>,
                                           sent: seq<PktSlot>)
    requires Ordered(slots) && DrainedInOrder(clock, Bag(slots), now, sent)
    ensures |sent| <= |slots| && sent == slots[..|sent|] && now == Bag(slots[|sent|..])
    ensures forall i :: 0 <= i < |sent| ==> Later(clock, slots[i].ts)
    decreases |sent|
  {
    if |sent| == 0 {
      assert slots[0..] == slots && Bag(sent) == multiset{};
    } else {
      DrainBegins(clock, slots, now, sent);
      TailIsOrdered(slots);
      hide Ordered, DrainedInOrder, Bag, Later;
      DrainedAreFirst(clock, slots[1..], now, sent[1..]);
      assert slots[1..][|sent| - 1..] == slots[|sent|..];
      assert sent == [slots[0]] + sent[1..] == slots[..|sent|];
      forall i | 0 <= i < |sent|
        ensures Later(clock, slots[i].ts)
      {
        if i > 0 {
          assert slots[i] == slots[1..][i - 1];
        }
      }
    }
  }

  lemma TailIsOrdered(slots: seq<PktSlot>)
    requires Ordered(slots) && |slots| > 0
    ensures Ordered(slots[1..])
  {
  }

  function Deliveries(k: nat): (actions: seq<NetAction>)
    ensures |actions| == k && forall i :: 0 <= i < k ==> actions[i] == Deliver(0)
  {
    seq(k, _ => Deliver(0))
  }

  lemma {:induction false} FirstAreDelivered(s: Settings, n: Net, k: nat) returns (states: seq<Net>)
    requires NetInv(s, n) && k <= |n.queue|
    requires forall i :: 0 <= i < k ==> Later(n.clock, n.queue[i].slot.ts)
    ensures IsNetPath(s, states, Deliveries(k)) && |states| == k + 1 && states[0] == n
    ensures states[k].queue == n.queue[k..]
    decreases k
  {
    hide *;
    if k == 0 {
      states := [n];
      NoDeliveries(s, n);
    } else {
      FirstIsTaken(s, n);
      var t := NetAfter(s, n, Deliver(0));
      var more := FirstAreDelivered(s, t, k - 1);
      NetPathExtended(s, n, Deliver(0), more, Deliveries(k - 1));
      states := [n] + more;
      DeliveriesGrow(k - 1);
      TailOfTail(n.queue, k - 1);
    }
  }

  lemma NoDeliveries(s: Settings, n: Net)
    requires NetInv(s, n)
    ensures IsNetPath(s, [n], Deliveries(0)) && n.queue[0..] == n.queue
  {
  }

  lemma DeliveriesGrow(k: nat)
    ensures [Deliver(0)] + Deliveries(k) == Deliveries(k + 1)
  {
  }

  lemma TailOfTail<T>(s: seq<T>, k: nat)
    requires k < |s|
    ensures s[1..][k..] == s[k + 1..]
  {
  }


  /** What `deliver_delayed_pkt` may do to a queue like the net's is to deliver so many packets, each the first. */
  lemma DrainIsSteps(s: Settings, n: Net, now: multiset<PktSlot>, sent: seq<PktSlot>) returns (states: seq<Net>)
    requires NetInv(s, n) && DrainedInOrder(n.clock, Bag(SlotsOf(n.queue)), now, sent)
    ensures |sent| <= |n.queue| && sent == SlotsOf(n.queue)[..|sent|]
    ensures IsNetPath(s, states, Deliveries(|sent|)) && states[0] == n
    ensures states[|sent|].queue == n.queue[|sent|..] && now == Bag(SlotsOf(states[|sent|].queue))
  {
    hide NetInv, DrainedInOrder, IsNetPath, Ordered, Bag, Later;
    NetQueueIsOrdered(s, n);
    var slots, k := SlotsOf(n.queue), |sent|;
    DrainedAreFirst(n.clock, slots, now, sent);
    assert forall i :: 0 <= i < k ==> slots[i] == n.queue[i].slot;
    states := FirstAreDelivered(s, n, k);
    assert SlotsOf(n.queue[k..]) == slots[k..];
  }

  lemma NetQueueIsOrdered(s: Settings, n: Net)
    requires NetInv(s, n)
    ensures Ordered(SlotsOf(n.queue))
  {
    QueueIsOrdered(s, n);
  }

  lemma FirstIsTaken(s: Settings, n: Net)
    requires NetInv(s, n) && |n.queue| > 0 && Later(n.clock, n.queue[0].slot.ts)
    ensures Usable(s.delay, s.jitter) && NetEnabled(s, n, Deliver(0))
    ensures var t := NetAfter(s, n, Deliver(0)); NetInv(s, t) && t.queue == n.queue[1..] && t.clock == n.clock
  {
    FirstCanBeDelivered(s, n);
    FirstItemIsOk(s, n);
    StepRefines(s, n, Deliver(0));
    DeliverLeaves(s, n);
    hide NetEnabled, NetAfter, QueueOk, LineOk, AsFifo, FifoEnabled, FifoAfter, FifoStep, Later, Applicable, Encoding;
  }

  lemma FirstCanBeDelivered(s: Settings, n: Net)
    requires NetInv(s, n) && |n.queue| > 0 && Later(n.clock, n.queue[0].slot.ts)
    ensures NetEnabled(s, n, Deliver(0))
  {
    QueueIsOrdered(s, n);
    assert ItemOk(s, n.queue[0]);
    forall j | 0 <= j < |n.queue|
      ensures !Later(n.queue[0].slot.ts, n.queue[j].slot.ts)
    {
      if j > 0 {
        assert Later(SlotsOf(n.queue)[j].ts, SlotsOf(n.queue)[0].ts);
      }
    }
  }

  lemma NetPathExtended(s: Settings, n: Net, a: NetAction, more: seq<Net>, steps: seq<NetAction>)
    requires Usable(s.delay, s.jitter) && NetEnabled(s, n, a)
    requires IsNetPath(s, more, steps) && more[0] == NetAfter(s, n, a)
    ensures IsNetPath(s, [n] + more, [a] + steps)
  {
    hide NetEnabled, NetAfter;
    var states, actions := [n] + more, [a] + steps;
    forall i | 0 <= i < |actions|
      ensures NetEnabled(s, states[i], actions[i]) && states[i + 1] == NetAfter(s, states[i], actions[i])
    {
      if i > 0 {
        assert actions[i] == steps[i - 1];
      }
    }
  }
}
