/** The lossy link between the two ends (`link_sim_repo/link_sim.c`). */
module Link {
  import opened Octets
  import opened Options
  import opened Packets
  import opened Protocol
  import opened MinQueues
  import opened LinkTime

  const LINK_FORWARD: int := 1
  const LINK_REVERSE: int := 2

  /** One entry of the queue: its expiry date, its direction and the packet. */
  datatype PktSlot = PktSlot(ts: TimeVal, direction: int, buf: seq<Octet>)

  /** `pkt_slot_cmp`. */
  function SlotCmp(): (PktSlot, PktSlot) -> bool {
    (a: PktSlot, b: PktSlot) => Later(a.ts, b.ts)
  }

  lemma SlotCmpIsStrictWeakOrder()
    ensures StrictWeakOrder(SlotCmp())
  {
    forall a: PktSlot, b: PktSlot, c: PktSlot
      ensures (SlotCmp()(a, b) ==> !SlotCmp()(b, a))
              && (!SlotCmp()(a, b) && !SlotCmp()(b, c) ==> !SlotCmp()(a, c))
    {
      LaterIsStrictWeakOrder(a.ts, b.ts, c.ts);
    }
  }

  /** Three throws of `rand() % 101`, and two more random numbers. */
  datatype Throws = Throws(loss: nat, cut: nat, err: nat, octet: nat, delay: nat)

  /** Which octet is inverted. */
  function Damaged(r: nat, len: nat): (i: nat)
    requires len > 0
    ensures i < len
  {
    r % len
  }

  /** In the order in which `simulate_link` decides: nothing for a packet that is dropped. */
  function Fate(lossRate: nat, cutRate: nat, errRate: nat, t: Throws, len: nat): Option<Effect>
    requires len > 0
  {
    if lossRate != 0 && t.loss < lossRate then None
    else if cutRate != 0 && t.cut < cutRate && len > 12 then Some(CutShort)
    else if errRate != 0 && t.err < errRate then Some(Inverted(Damaged(t.octet, len)))
    else Some(Intact)
  }

  /** The packet is dropped by the first throw, cut by the second if long enough, and else corrupted by the third. */
  lemma FateLaw(lossRate: nat, cutRate: nat, errRate: nat, t: Throws, len: nat)
    requires len > 0
    ensures var fate := Fate(lossRate, cutRate, errRate, t, len);
            if t.loss < lossRate then fate == None
            else if t.cut < cutRate && len > 12 then fate == Some(CutShort)
            else if t.err < errRate then fate == Some(Inverted(t.octet % len))
            else fate == Some(Intact)
  {
  }

  /** What is left of a packet that is not dropped, octet by octet. */
  ghost predicate IsAltered(buf: seq<Octet>, cutRate: nat, errRate: nat, t: Throws, out: seq<Octet>) {
    if t.cut < cutRate && |buf| > 12 then
      |out| == 12 && out[0] == buf[0] | 0x20 && forall i :: 1 <= i < 12 ==> out[i] == buf[i]
    else
      && |out| == |buf|
      && forall i :: 0 <= i < |buf| ==> out[i] == if t.err < errRate && i == t.octet % |buf| then !buf[i] else buf[i]
  }

  lemma LossLaw(lossRate: nat, cutRate: nat, errRate: nat, t: Throws, buf: seq<Octet>)
    requires |buf| > 0
    ensures var fate := Fate(lossRate, cutRate, errRate, t, |buf|);
            && (fate == None <==> t.loss < lossRate)
            && (fate.Some? ==>
                  Applicable(fate.value, buf) && IsAltered(buf, cutRate, errRate, t, Arriving(fate.value, buf)))
  {
    FateLaw(lossRate, cutRate, errRate, t, |buf|);
  }

  lemma FateApplies(lossRate: nat, cutRate: nat, errRate: nat, t: Throws, buf: seq<Octet>)
    requires |buf| > 0 && Fate(lossRate, cutRate, errRate, t, |buf|).Some?
    ensures Applicable(Fate(lossRate, cutRate, errRate, t, |buf|).value, buf)
  {
  }

  /** Expiry dates strictly increase. */
  ghost predicate Ordered(slots: seq<PktSlot>) {
    forall i, j :: 0 <= i < j < |slots| ==> Later(slots[j].ts, slots[i].ts)
  }

  ghost predicate Increasing(clocks: seq<TimeVal>) {
    forall i, j :: 0 <= i < j < |clocks| ==> Later(clocks[j], clocks[i])
  }

  /** Expiry dates do not decrease. */
  ghost predicate Sorted(slots: seq<PktSlot>) {
    forall i, j :: 0 <= i < j < |slots| ==> !Later(slots[i].ts, slots[j].ts)
  }

  /** A least slot of what is left of an ordered sequence is its first. */
  lemma LeastIsFirst(log: seq<PktSlot>, k: nat, p: PktSlot)
    requires Ordered(log) && k <= |log| && p in log[k..]
    requires forall x :: x in log[k..] ==> !Later(p.ts, x.ts)
    ensures p == log[k]
  {
    var i :| k <= i < |log| && log[i] == p;
    assert log[k] in log[k..];
    if i > k {
      assert Later(log[i].ts, log[k].ts);
    }
  }

  lemma OrderedPrefix(log: seq<PktSlot>, p: PktSlot)
    requires Ordered(log + [p])
    ensures Ordered(log)
  {
    assert forall i :: 0 <= i < |log| ==> (log + [p])[i] == log[i];
  }

  lemma BagOfTail(log: seq<PktSlot>, k: nat, queued: multiset<PktSlot>)
    requires k <= |log| && queued + Bag(log[..k]) == Bag(log)
    ensures queued == Bag(log[k..])
  {
    assert log == log[..k] + log[k..];
    assert queued + multiset(log[..k]) == multiset(log[..k]) + multiset(log[k..]);
    forall x
      ensures queued[x] == multiset(log[k..])[x]
    {
      assert (queued + multiset(log[..k]))[x] == (multiset(log[..k]) + multiset(log[k..]))[x];
    }
  }

  /**
   Every packet enqueued has been delivered once or is still queued; when the expiry dates grow, the first have been.
   Without jitter each expiry date is the clock reading at that packet plus the same delay.
   */
  ghost predicate Accounted(queued: multiset<PktSlot>, delivered: seq<PktSlot>, enqueued: seq<PktSlot>,
                            clocks: seq<TimeVal>, delay: nat, jitter: nat) {
    && queued + Bag(delivered) == Bag(enqueued)
    && (Ordered(enqueued) ==> delivered <= enqueued)
    && |clocks| == |enqueued|
    && (forall i :: 0 <= i < |enqueued| ==> NearlyNormalised(enqueued[i].ts))
    && (forall i :: 0 <= i < |clocks| ==> Normalised(clocks[i]))
    && (jitter == 0 ==> forall i :: 0 <= i < |enqueued| ==> enqueued[i].ts == Expiry(clocks[i], delay % 10000))
  }

  lemma EnqueueIsAccounted(queued: multiset<PktSlot>, delivered: seq<PktSlot>, enqueued: seq<PktSlot>,
                           clocks: seq<TimeVal>, delay: nat, jitter: nat, p: PktSlot, clock: TimeVal, ms: nat)
    requires Accounted(queued, delivered, enqueued, clocks, delay, jitter)
    requires Normalised(clock) && p.ts == Expiry(clock, ms) && (jitter == 0 ==> ms == delay % 10000)
    ensures Accounted(queued + multiset{p}, delivered, enqueued + [p], clocks + [clock], delay, jitter)
  {
    BagOfAppended(enqueued, p);
    if Ordered(enqueued + [p]) {
      OrderedPrefix(enqueued, p);
      assert delivered == enqueued[..|delivered|] == (enqueued + [p])[..|delivered|];
    }
  }

  lemma SendIsAccounted(queued: multiset<PktSlot>, delivered: seq<PktSlot>, enqueued: seq<PktSlot>,
                        clocks: seq<TimeVal>, delay: nat, jitter: nat, p: PktSlot)
    requires Accounted(queued, delivered, enqueued, clocks, delay, jitter)
    requires p in queued && forall x :: x in queued ==> !Later(p.ts, x.ts)
    ensures Accounted(queued - multiset{p}, delivered + [p], enqueued, clocks, delay, jitter)
  {
    BagOfAppended(delivered, p);
    if Ordered(enqueued) {
      NextIsSent(queued, delivered, enqueued, p);
    }
    hide Ordered, Bag, Later;
  }

  /** If the expiry dates grow, a least packet in the queue is the one that came after those delivered. */
  lemma NextIsSent(queued: multiset<PktSlot>, delivered: seq<PktSlot>, enqueued: seq<PktSlot>, p: PktSlot)
    requires queued + Bag(delivered) == Bag(enqueued) && Ordered(enqueued) && delivered <= enqueued
    requires p in queued && forall x :: x in queued ==> !Later(p.ts, x.ts)
    ensures delivered + [p] <= enqueued
  {
    var n := |delivered|;
    assert delivered == enqueued[..n];
    BagOfTail(enqueued, n, queued);
    hide Ordered, Later;
    LeastIsFirst(enqueued, n, p);
    assert delivered + [p] == enqueued[..n + 1];
  }

  /** What a drain may have done to the queue: sent these packets, all expired, each before what is left. */
  ghost predicate DrainedInOrder(clock: TimeVal, before: multiset<PktSlot>, now: multiset<PktSlot>,
                                 sent: seq<PktSlot>) {
    && now + Bag(sent) == before
    && Sorted(sent)
    && (forall p :: p in sent ==> Later(clock, p.ts))
    && (forall p, x :: p in sent && x in now ==> !Later(p.ts, x.ts))
  }

  /**
   What that means in real time. A packet is sent early exactly when its microseconds have not been carried and the
   clock is in the next second, and by less than a second; nothing is sent before a packet that was due a second earlier
   or more.
   */
  ghost predicate DrainedInTime(clock: TimeVal, now: multiset<PktSlot>, sent: seq<PktSlot>) {
    && (forall p :: p in sent ==>
          && p.ts.Total() < clock.Total() + MICROS
          && (clock.Total() <= p.ts.Total() <==> clock.sec == p.ts.sec + 1 && clock.usec <= p.ts.usec - MICROS))
    && (forall i, j :: 0 <= i < j < |sent| ==> InTime(sent[i].ts, sent[j].ts))
    && (forall p, x :: p in sent && x in now ==> InTime(p.ts, x.ts))
  }

  /** The packet sent first is due before the other, or less than a second after it for want of a carry. */
  predicate InTime(first: TimeVal, other: TimeVal) {
    && first.Total() < other.Total() + MICROS
    && (other.Total() < first.Total() <==> other.sec == first.sec + 1 && other.usec + MICROS < first.usec)
  }

  /** The time-out outlasts 1 ms and the time left of y exactly if y is due before x, and x is waited for in full. */
  predicate OutlastsExactly(timeout: TimeVal, x: TimeVal, y: TimeVal, clock: TimeVal) {
    timeout.Total() > 1000 && timeout.Total() > y.Total() - clock.Total()
    <==> && y.sec == x.sec + 1 && y.usec + MICROS < x.usec
         && !Clamped(Difference(x, clock)) && x.Total() - clock.Total() > 1000
  }

  /** The date is a clock reading plus this delay. */
  ghost predicate DelayedBy(ts: TimeVal, ms: nat) {
    exists start :: Normalised(start) && ts == Expiry(start, ms)
  }

  lemma EqualDelaysInTime(a: TimeVal, b: TimeVal, ms: nat)
    requires DelayedBy(a, ms) && DelayedBy(b, ms) && !Later(a, b)
    ensures a.Total() <= b.Total()
  {
    var s :| Normalised(s) && a == Expiry(s, ms);
    var t :| Normalised(t) && b == Expiry(t, ms);
    EqualDelaysExpireInTime(s, t, ms);
  }

  lemma FirstInTime(a: TimeVal, b: TimeVal)
    requires NearlyNormalised(a) && NearlyNormalised(b) && !Later(a, b)
    ensures InTime(a, b)
  {
    OrderAgainstTime(a, b);
    LaterIsStrictWeakOrder(a, b, a);
  }

  lemma DrainIsInTime(clock: TimeVal, before: multiset<PktSlot>, now: multiset<PktSlot>, sent: seq<PktSlot>)
    requires DrainedInOrder(clock, before, now, sent)
    requires Normalised(clock) && forall p :: p in before ==> NearlyNormalised(p.ts)
    ensures DrainedInTime(clock, now, sent)
  {
    assert forall p :: p in sent ==> p in now + Bag(sent);
    assert forall x :: x in now ==> x in now + Bag(sent);
    forall p | p in sent
      ensures Later(clock, p.ts) && NearlyNormalised(p.ts)
    {
      ExpiresEarly(clock, p.ts);
    }
    forall i, j | 0 <= i < j < |sent|
      ensures InTime(sent[i].ts, sent[j].ts)
    {
      FirstInTime(sent[i].ts, sent[j].ts);
    }
    forall p, x | p in sent && x in now
      ensures InTime(p.ts, x.ts)
    {
      FirstInTime(p.ts, x.ts);
    }
  }

  lemma DrainGoesOn(clock: TimeVal, before: multiset<PktSlot>, now: multiset<PktSlot>, sent: seq<PktSlot>, p: PktSlot)
    requires DrainedInOrder(clock, before, now, sent)
    requires p in now && Later(clock, p.ts) && forall x :: x in now ==> !Later(p.ts, x.ts)
    ensures DrainedInOrder(clock, before, now - multiset{p}, sent + [p])
  {
    BagOfAppended(sent, p);
    forall x | x in now - multiset{p}
      ensures x in now
    {
    }
  }

  lemma NoJitterMeansDelay(delay: nat, r: nat)
    requires delay < UINT32
    ensures AppliedDelay(delay, 0, r) == delay % 10000
  {
  }

  lemma NothingDrained(clock: TimeVal, queued: multiset<PktSlot>)
    ensures DrainedInOrder(clock, queued, queued, [])
  {
  }

  lemma LaterThanFirst(clock: TimeVal, p: PktSlot, queued: multiset<PktSlot>)
    requires !Later(clock, p.ts) && forall x :: x in queued ==> !Later(p.ts, x.ts)
    ensures forall x :: x in queued ==> !Later(clock, x.ts)
  {
    forall x | x in queued
      ensures !Later(clock, x.ts)
    {
      LaterIsStrictWeakOrder(clock, p.ts, x.ts);
    }
  }

  lemma ExpiriesInOrder(slots: seq<PktSlot>, clocks: seq<TimeVal>, ms: nat)
    requires |slots| == |clocks| && Increasing(clocks)
    requires forall i :: 0 <= i < |slots| ==> slots[i].ts == Expiry(clocks[i], ms)
    ensures Ordered(slots)
  {
    forall i, j | 0 <= i < j < |slots|
      ensures Later(slots[j].ts, slots[i].ts)
    {
      EqualDelaysKeepOrder(clocks[j], clocks[i], ms);
    }
  }

  class LinkSim {
    const delay: nat
    const jitter: nat
    const lossRate: nat
    const cutRate: nat
    const errRate: nat
    const pktQueue: MinQueue<PktSlot>
    var lastClock: TimeVal
    /** What `write_out` was given at once, when there is no delay. */
    var passed: seq<(int, seq<Octet>)>
    /** What `deliver_delayed_pkt` has sent. */
    var delivered: seq<PktSlot>
    /** What was put in the queue, and when. */
    ghost var enqueued: seq<PktSlot>
    ghost var clocks: seq<TimeVal>

    ghost predicate Valid()
      reads this, pktQueue, pktQueue.e
    {
      && pktQueue.Valid() && pktQueue.cmp == SlotCmp()
      && Usable(delay, jitter) && Normalised(lastClock)
      && pktQueue.size <= pktQueue.e.Length
      && Accounted(pktQueue.Elements(), delivered, enqueued, clocks, delay, jitter)
    }

    constructor (delay: nat, jitter: nat, lossRate: nat, cutRate: nat, errRate: nat, clock: TimeVal)
      requires Usable(delay, jitter) && Normalised(clock)
      ensures Valid() && fresh(pktQueue) && fresh(pktQueue.e) && enqueued == [] && delivered == [] && passed == []
    {
      this.delay, this.jitter, this.lossRate, this.cutRate, this.errRate := delay, jitter, lossRate, cutRate, errRate;
      SlotCmpIsStrictWeakOrder();
      pktQueue := new MinQueue(SlotCmp());
      lastClock := clock;
      passed, delivered, enqueued, clocks := [], [], [], [];
    }

    /** `update_time`. */
    method UpdateTime(now: TimeVal)
      requires Valid() && Normalised(now)
      modifies this`lastClock
      ensures Valid() && lastClock == now
    {
      lastClock := now;
    }

    /** With no jitter and a clock that had moved on at each packet, the delayed link is FIFO. */
    lemma DelayedLinkIsFifo()
      requires Valid() && jitter == 0 && Increasing(clocks)
      ensures delivered <= enqueued && pktQueue.Elements() == Bag(enqueued[|delivered|..])
    {
      ExpiriesInOrder(enqueued, clocks, delay % 10000);
      assert delivered == enqueued[..|delivered|];
      BagOfTail(enqueued, |delivered|, pktQueue.Elements());
    }

    /**
     What `simulate_link` does with a packet, given what had been passed on, queued and when: nothing is left of it, or
     it is written out, or queued under the clock plus the delay, as altered.
     */
    ghost predicate Dealt(buf: seq<Octet>, direction: int, t: Throws, write: bool, ok: bool,
                          wasPassed: seq<(int, seq<Octet>)>, wasEnqueued: seq<PktSlot>, wasClocks: seq<TimeVal>)
      requires Usable(delay, jitter)
      reads this
    {
      if t.loss < lossRate then ok && passed == wasPassed && enqueued == wasEnqueued && clocks == wasClocks
      else
        exists out :: IsAltered(buf, cutRate, errRate, t, out)
          && if delay == 0 then
               && enqueued == wasEnqueued && clocks == wasClocks && ok == write
               && passed == wasPassed + if write then [(direction, out)] else []
             else
               && ok && passed == wasPassed && clocks == wasClocks + [lastClock]
               && enqueued == wasEnqueued
                    + [PktSlot(Expiry(lastClock, AppliedDelay(delay, jitter, t.delay)), direction, out)]
    }

    /** `simulate_link` on a packet; `write` tells whether it could be written if not delayed. */
    method Simulate(buf: seq<Octet>, direction: int, t: Throws, write: bool) returns (ok: bool)
      requires Valid() && 0 < |buf| <= MAX_PKT_LEN
      modifies this`passed, this`enqueued, this`clocks, pktQueue, pktQueue.e
      ensures Valid() && lastClock == old(lastClock) && delivered == old(delivered)
      ensures pktQueue.e == old(pktQueue.e) || fresh(pktQueue.e)
      ensures Dealt(buf, direction, t, write, ok, old(passed), old(enqueued), old(clocks))
      ensures pktQueue.Elements() == old(pktQueue.Elements()) + Bag(enqueued[|old(enqueued)|..])
    {
      hide Accounted, MinQueue.Elements, MinQueue.Valid, Arriving, Fate, IsAltered, Expiry, AppliedDelay, Applicable;
      assert Bag(enqueued[|enqueued|..]) == multiset{};
      var out := Alter(buf, t);
      if out == None { return true; }
      if delay != 0 {
        NoJitterMeansDelay(delay, t.delay);
        Enqueue(out.value, direction, AppliedDelay(delay, jitter, t.delay));
      } else {
        if !write { return false; }
        passed := passed + [(direction, out.value)];
      }
      return true;
    }

    /** The part of `simulate_link` that drops, cuts or corrupts. */
    method Alter(buf: seq<Octet>, t: Throws) returns (out: Option<seq<Octet>>)
      requires 0 < |buf|
      ensures match Fate(lossRate, cutRate, errRate, t, |buf|)
              case None => out == None
              case Some(effect) => Applicable(effect, buf) && out == Some(Arriving(effect, buf))
      ensures out == None <==> t.loss < lossRate
      ensures out.Some? ==> IsAltered(buf, cutRate, errRate, t, out.value)
    {
      hide Damaged, IsAltered;
      LossLaw(lossRate, cutRate, errRate, t, buf);
      if lossRate != 0 && t.loss < lossRate { return None; }
      var len := |buf|;
      if cutRate != 0 && t.cut < cutRate && len > 12 {
        len := 12;
        return Some(buf[..len][0 := buf[0] | 0x20]);
      } else if errRate != 0 && t.err < errRate {
        var idx := Damaged(t.octet, len);
        return Some(buf[idx := !buf[idx]]);
      }
      return Some(buf);
    }

    method Enqueue(out: seq<Octet>, direction: int, ms: nat)
      requires Valid() && ms < 10000 && (jitter == 0 ==> ms == delay % 10000)
      modifies this`enqueued, this`clocks, pktQueue, pktQueue.e
      ensures Valid() && (pktQueue.e == old(pktQueue.e) || fresh(pktQueue.e))
      ensures clocks == old(clocks) + [lastClock]
      ensures enqueued == old(enqueued) + [PktSlot(Expiry(lastClock, ms), direction, out)]
      ensures pktQueue.Elements() == old(pktQueue.Elements()) + Bag(enqueued[|old(enqueued)|..])
    {
      hide Accounted, MinQueue.Elements;
      var slot := PktSlot(Expiry(lastClock, ms), direction, out);
      EnqueueIsAccounted(pktQueue.Elements(), delivered, enqueued, clocks, delay, jitter, slot, lastClock, ms);
      pktQueue.Push(slot);
      enqueued := enqueued + [slot];
      clocks := clocks + [lastClock];
    }

    /** p is the packet with the earliest expiry date, or there is none. */
    ghost predicate IsFirst(found: bool, p: PktSlot)
      requires pktQueue.size <= pktQueue.e.Length
      reads pktQueue, pktQueue.e
    {
      if found then
        && pktQueue.size > 0 && p == pktQueue.e[0] && p in pktQueue.Elements()
        && forall x :: x in pktQueue.Elements() ==> !Later(p.ts, x.ts)
      else pktQueue.Elements() == multiset{}
    }

    method First() returns (found: bool, p: PktSlot)
      requires Valid()
      ensures IsFirst(found, p)
    {
      found, p := pktQueue.Peek();
      if found {
        forall x | x in pktQueue.Elements()
          ensures !Later(p.ts, x.ts)
        {
          assert !SlotCmp()(p, x);
        }
      }
    }

    /** Sends the first packet, which leaves the queue. */
    method SendFirst(p: PktSlot, ghost before: multiset<PktSlot>, ghost sent: seq<PktSlot>)
      requires Valid() && IsFirst(true, p) && Later(lastClock, p.ts)
      requires DrainedInOrder(lastClock, before, pktQueue.Elements(), sent)
      modifies this`delivered, pktQueue`size, pktQueue.e
      ensures Valid() && delivered == old(delivered) + [p]
      ensures DrainedInOrder(lastClock, before, pktQueue.Elements(), sent + [p])
    {
      hide Accounted, MinQueue.Elements, DrainedInOrder, Later;
      SendIsAccounted(pktQueue.Elements(), delivered, enqueued, clocks, delay, jitter, p);
      DrainGoesOn(lastClock, before, pktQueue.Elements(), sent, p);
      pktQueue.Pop();
      delivered := delivered + [p];
    }

    /**
     `deliver_delayed_pkt`; the socket accepts `writes` packets, and fails then for a moment or for good. What is sent
     the comparison takes for expired, and it goes in the order of the comparison. It stops only on a failure or when
     nothing is left whose time has come.
     */
    method DeliverDelayed(writes: nat, transient: bool) returns (ok: bool, ghost sent: seq<PktSlot>)
      requires Valid()
      modifies this`delivered, pktQueue`size, pktQueue.e
      ensures Valid() && delivered == old(delivered) + sent && |sent| <= writes
      ensures DrainedInOrder(lastClock, old(pktQueue.Elements()), pktQueue.Elements(), sent)
      ensures DrainedInTime(lastClock, pktQueue.Elements(), sent)
      ensures jitter == 0 ==> forall i, j :: 0 <= i < j < |sent| ==> sent[i].ts.Total() <= sent[j].ts.Total()
      ensures |sent| == writes || forall x :: x in pktQueue.Elements() ==>
                !Later(lastClock, x.ts) && lastClock.Total() <= x.ts.Total()
      ensures !ok ==> |sent| == writes && !transient
    {
      hide Accounted, MinQueue.Elements, MinQueue.Valid, DrainedInOrder, Usable, Normalised, Later, IsFirst;
      sent := [];
      ghost var before := pktQueue.Elements();
      NothingDrained(lastClock, before);
      QueuedFacts();
      var left := writes;
      var found, p := First();
      while found && Later(lastClock, p.ts)
        invariant Valid() && delivered == old(delivered) + sent && |sent| + left == writes
        invariant IsFirst(found, p)
        invariant DrainedInOrder(lastClock, before, pktQueue.Elements(), sent)
        decreases left, found
      {
        if left == 0 {
          DrainedFacts(before, sent);
          return transient, sent;
        }
        left := left - 1;
        SendFirst(p, before, sent);
        sent := sent + [p];
        found, p := First();
      }
      NothingExpiredLeft(found, p);
      DrainedFacts(before, sent);
      return true, sent;
    }

    lemma QueuedFacts()
      requires Valid()
      ensures forall p :: p in pktQueue.Elements() ==>
                NearlyNormalised(p.ts) && (jitter == 0 ==> DelayedBy(p.ts, delay % 10000))
    {
      hide MinQueue.Elements, Accounted;
      forall p | p in pktQueue.Elements()
        ensures NearlyNormalised(p.ts) && (jitter == 0 ==> DelayedBy(p.ts, delay % 10000))
      {
        EnqueuedFact(p);
      }
    }

    lemma DrainedFacts(before: multiset<PktSlot>, sent: seq<PktSlot>)
      requires Valid() && DrainedInOrder(lastClock, before, pktQueue.Elements(), sent)
      requires forall p :: p in before ==> NearlyNormalised(p.ts) && (jitter == 0 ==> DelayedBy(p.ts, delay % 10000))
      ensures DrainedInTime(lastClock, pktQueue.Elements(), sent)
      ensures jitter == 0 ==> forall i, j :: 0 <= i < j < |sent| ==> sent[i].ts.Total() <= sent[j].ts.Total()
    {
      hide MinQueue.Elements, Accounted, DelayedBy;
      DrainIsInTime(lastClock, before, pktQueue.Elements(), sent);
      if jitter == 0 {
        forall i, j | 0 <= i < j < |sent|
          ensures sent[i].ts.Total() <= sent[j].ts.Total()
        {
          assert forall p :: p in sent ==> p in pktQueue.Elements() + Bag(sent);
          assert sent[i] in sent && sent[j] in sent;
          EqualDelaysInTime(sent[i].ts, sent[j].ts, delay % 10000);
        }
      }
    }

    lemma NothingExpiredLeft(found: bool, p: PktSlot)
      requires Valid() && IsFirst(found, p) && (found ==> !Later(lastClock, p.ts))
      ensures forall x :: x in pktQueue.Elements() ==> !Later(lastClock, x.ts) && lastClock.Total() <= x.ts.Total()
    {
      hide MinQueue.Elements;
      if found {
        LaterThanFirst(lastClock, p, pktQueue.Elements());
        QueuedFacts();
        forall x | x in pktQueue.Elements()
          ensures lastClock.Total() <= x.ts.Total()
        {
          ExpiresEarly(lastClock, x.ts);
        }
      }
    }

    lemma EnqueuedFact(p: PktSlot)
      requires Valid() && p in pktQueue.Elements()
      ensures NearlyNormalised(p.ts)
      ensures jitter == 0 ==> DelayedBy(p.ts, delay % 10000)
    {
      assert p in pktQueue.Elements() + Bag(delivered);
      assert p in enqueued;
      var i :| 0 <= i < |enqueued| && enqueued[i] == p;
      assert jitter == 0 ==> Normalised(clocks[i]) && p.ts == Expiry(clocks[i], delay % 10000);
    }

    /** x comes first in the queue, and is due first but for the missing carry; without jitter it is due first. */
    ghost predicate FirstDue(x: PktSlot)
      requires pktQueue.size <= pktQueue.e.Length
      reads pktQueue, pktQueue.e
    {
      && x in pktQueue.Elements()
      && (forall y :: y in pktQueue.Elements() ==>
            !Later(x.ts, y.ts) && InTime(x.ts, y.ts) && (jitter == 0 ==> x.ts.Total() <= y.ts.Total()))
    }

    lemma FirstIsFirstDue(x: PktSlot)
      requires Valid() && IsFirst(true, x)
      ensures FirstDue(x)
    {
      hide MinQueue.Elements, Accounted, DelayedBy;
      QueuedFacts();
      forall y | y in pktQueue.Elements()
        ensures InTime(x.ts, y.ts) && (jitter == 0 ==> x.ts.Total() <= y.ts.Total())
      {
        FirstInTime(x.ts, y.ts);
        if jitter == 0 {
          EqualDelaysInTime(x.ts, y.ts, delay % 10000);
        }
      }
    }

    lemma TimeoutAgainstQueued(x: PktSlot)
      requires Valid() && FirstDue(x)
      ensures forall y :: y in pktQueue.Elements() ==>
                OutlastsExactly(Timeout(x.ts, lastClock), x.ts, y.ts, lastClock)
    {
      hide MinQueue.Elements, Accounted, DelayedBy, InTime;
      QueuedFacts();
      forall y | y in pktQueue.Elements()
        ensures OutlastsExactly(Timeout(x.ts, lastClock), x.ts, y.ts, lastClock)
      {
        TimeoutOutlasts(x.ts, y.ts, lastClock);
      }
    }

    /** `get_queue_timeout`: at most the time left of the packet that comes first, or 1 ms. */
    method QueueTimeout() returns (timeout: Option<TimeVal>)
      requires Valid()
      ensures timeout == None <==> pktQueue.Elements() == multiset{}
      ensures timeout.Some? ==>
                exists x :: FirstDue(x)
                  && timeout.value == Timeout(x.ts, lastClock)
                  && 0 < timeout.value.Total()
                  && (timeout.value.Total() <= x.ts.Total() - lastClock.Total() || timeout.value.Total() == 1000)
                  && (forall y :: y in pktQueue.Elements() ==> OutlastsExactly(timeout.value, x.ts, y.ts, lastClock))
    {
      var found, first := First();
      if !found { return None; }
      EnqueuedFact(first);
      FirstIsFirstDue(first);
      var d := TimevalDiff(first.ts, lastClock);
      TimeoutBounds(first.ts, lastClock);
      TimeoutAgainstQueued(first);
      if d.sec < 0 || (d.sec == 0 && d.usec <= 0) {
        d := TimeVal(0, 1000);
      }
      return Some(d);
    }

    /** The times at which packets were queued strictly increase, up to the last reading of the clock. */
    ghost predicate ClocksInOrder()
      reads this
    {
      Increasing(clocks) && forall i :: 0 <= i < |clocks| ==> !Later(clocks[i], lastClock)
    }

    /**
     One round of `proxy_loop`: the clock is read, what has expired is sent, and a packet that has come is dealt with
     unless the sending failed for good. Nothing that has expired is left unless the socket accepts no more. If the
     clock reads a later time in each round, the times at which packets are queued strictly increase.
     */
    method Round(now: TimeVal, writes: nat, transient: bool, incoming: Option<(seq<Octet>, int)>, t: Throws,
                 write: bool)
      returns (ok: bool, ghost drained: bool, ghost sent: seq<PktSlot>)
      requires Valid() && Normalised(now)
      requires incoming.Some? ==> 0 < |incoming.value.0| <= MAX_PKT_LEN
      modifies this, pktQueue, pktQueue.e
      ensures Valid() && lastClock == now && delivered == old(delivered) + sent
      ensures old(enqueued) <= enqueued
      ensures exists left: multiset<PktSlot> :: DrainedInOrder(now, old(pktQueue.Elements()), left, sent)
                && (|sent| == writes || forall x :: x in left ==> !Later(now, x.ts))
                && pktQueue.Elements() == left + Bag(enqueued[|old(enqueued)|..])
      ensures |sent| <= writes && (!drained ==> |sent| == writes && !transient)
      ensures if drained && incoming.Some? then
                Dealt(incoming.value.0, incoming.value.1, t, write, ok, old(passed), old(enqueued), old(clocks))
              else
                ok == drained && passed == old(passed) && enqueued == old(enqueued) && clocks == old(clocks)
      ensures old(ClocksInOrder()) && Later(now, old(lastClock)) ==> ClocksInOrder()
    {
      ghost var was, before := clocks, lastClock;
      hide MinQueue.Elements, MinQueue.Valid, DrainedInOrder, DrainedInTime, Later, Fate, Arriving, Expiry,
           AppliedDelay, Increasing, Accounted, Usable, DelayedBy, IsAltered;
      UpdateTime(now);
      ok, sent := DeliverDelayed(writes, transient);
      drained := ok;
      assert Bag(enqueued[|enqueued|..]) == multiset{};
      ghost var left := pktQueue.Elements();
      if ok && incoming.Some? {
        ok := Simulate(incoming.value.0, incoming.value.1, t, write);
      }
      RoundKeepsOrder(was, before, now);
    }
  }

  lemma RoundKeepsOrder(clocks: seq<TimeVal>, before: TimeVal, now: TimeVal)
    ensures Increasing(clocks) && Later(now, before)
            && (forall i :: 0 <= i < |clocks| ==> !Later(clocks[i], before)) ==>
              && Increasing(clocks + [now])
              && (forall i :: 0 <= i < |clocks + [now]| ==> !Later((clocks + [now])[i], now))
              && (forall i :: 0 <= i < |clocks| ==> !Later(clocks[i], now))
  {
  }
}
