/**
 Times, delays and the `select` time-out of the link simulator (`link_sim_repo/link_sim.c`), and how far the comparison
 of pairs that are not normalised departs from real time.
 */
module LinkTime {
  const MICROS: int := 1_000_000
  const UINT32: nat := 0x1_0000_0000

  datatype TimeVal = TimeVal(sec: int, usec: int) {
    /** The real time that the pair stands for; the microseconds need not be normalised. */
    function Total(): int {
      sec * MICROS + usec
    }
  }

  /** `timeval_cmp`: lexicographic, whatever the microseconds are. */
  predicate Later(left: TimeVal, right: TimeVal) {
    if left.sec == right.sec then left.usec > right.usec else left.sec > right.sec
  }

  /** A reading of the clock. */
  predicate Normalised(t: TimeVal) {
    0 <= t.usec < MICROS
  }

  lemma LaterIsStrictWeakOrder(a: TimeVal, b: TimeVal, c: TimeVal)
    ensures Later(a, b) ==> !Later(b, a)
    ensures !Later(a, b) && !Later(b, c) ==> !Later(a, c)
    ensures Later(a, b) || Later(b, a) || a == b
  {
  }

  /** As far as the microseconds of an expiry date get. */
  predicate NearlyNormalised(t: TimeVal) {
    0 <= t.usec < 2 * MICROS
  }

  // ---- delays

  /** Options for which no random number is taken modulo zero. */
  predicate Usable(delay: nat, jitter: nat) {
    && delay < UINT32 && jitter < UINT32
    && (jitter > delay ==> (delay + jitter) % UINT32 != 0)
    && (0 < jitter <= delay ==> (2 * jitter) % UINT32 != 0)
  }

  /** The delay that `simulate_link` applies, in unsigned 32-bit arithmetic, from the random number r. */
  function AppliedDelay(delay: nat, jitter: nat, r: nat): (ms: nat)
    requires Usable(delay, jitter)
    ensures ms < 10000
  {
    var applied :=
      if jitter == 0 then delay
      else if jitter > delay then r % ((delay + jitter) % UINT32)
      else ((delay + r % ((2 * jitter) % UINT32)) - jitter) % UINT32;
    applied % 10000
  }

  lemma SmallRemainder(n: nat, m: nat)
    requires n < m
    ensures n % m == n
  {
  }

  /** The delay in milliseconds that the options ask for, given the random number. */
  function DelayAsked(delay: nat, jitter: nat, r: nat): nat
    requires Usable(delay, jitter)
  {
    if jitter == 0 then delay
    else if jitter > delay then r % ((delay + jitter) % UINT32)
    else delay - jitter + r % ((2 * jitter) % UINT32)
  }

  /**
   What is asked for, on options whose sums do not wrap: the delay itself; or, with more jitter than delay, anything
   below the sum of the two; or else anything from the difference up to below the sum. Small throws are taken as is.
   */
  lemma DelaysAskedFor(delay: nat, jitter: nat, r: nat)
    requires Usable(delay, jitter) && delay + jitter < UINT32
    ensures var x := DelayAsked(delay, jitter, r);
            && (jitter == 0 ==> x == delay)
            && (jitter > delay ==> x < delay + jitter && (r < delay + jitter ==> x == r))
            && (0 < jitter <= delay ==>
                  delay - jitter <= x < delay + jitter && (r < 2 * jitter ==> x == delay - jitter + r))
  {
    if jitter > delay {
      SmallRemainder(delay + jitter, UINT32);
      if r < delay + jitter {
        SmallRemainder(r, delay + jitter);
      }
    } else if jitter > 0 {
      SmallRemainder(2 * jitter, UINT32);
      if r < 2 * jitter {
        SmallRemainder(r, 2 * jitter);
      }
    }
  }

  /** The delay is taken modulo 10 s, not capped to 10 s: it is the one asked for exactly when that is below 10 s. */
  lemma DelayIsAsAsked(delay: nat, jitter: nat, r: nat)
    requires Usable(delay, jitter)
    ensures AppliedDelay(delay, jitter, r) == DelayAsked(delay, jitter, r) <==> DelayAsked(delay, jitter, r) < 10000
    ensures DelayAsked(delay, jitter, r) < UINT32 ==>
              AppliedDelay(delay, jitter, r) == DelayAsked(delay, jitter, r) % 10000
  {
    var x := DelayAsked(delay, jitter, r);
    if x < UINT32 {
      SmallRemainder(x, UINT32);
    }
    if x < 10000 {
      SmallRemainder(x, 10000);
    }
  }

  /** The expiry date of a packet delayed by ms milliseconds: the microseconds are not carried over. */
  function Expiry(clock: TimeVal, ms: nat): TimeVal {
    TimeVal(clock.sec + ms / 1000, clock.usec + ms % 1000 * 1000)
  }

  /** Equal delays keep the order of the clock readings, and only those. */
  lemma EqualDelaysKeepOrder(a: TimeVal, b: TimeVal, ms: nat)
    ensures Later(Expiry(a, ms), Expiry(b, ms)) <==> Later(a, b)
  {
  }

  lemma ExpiryIsTotalDelay(clock: TimeVal, ms: nat)
    ensures Expiry(clock, ms).Total() == clock.Total() + ms * 1000
    ensures Normalised(clock) ==> NearlyNormalised(Expiry(clock, ms))
  {
  }

  /**
   When a packet is taken for expired although its time has not come: its microseconds exceed a second and the clock is
   in the next second. It is then less than a second early; and no packet whose time has come is held back.
   */
  lemma ExpiresEarly(clock: TimeVal, ts: TimeVal)
    requires Normalised(clock) && NearlyNormalised(ts)
    ensures Later(clock, ts) && clock.Total() <= ts.Total()
            <==> clock.sec == ts.sec + 1 && clock.usec <= ts.usec - MICROS
    ensures Later(clock, ts) ==> ts.Total() - clock.Total() < MICROS
    ensures clock.Total() > ts.Total() ==> Later(clock, ts)
  {
  }

  /** Such a packet: delayed by 999 ms at 10.5 s, it is due at 11.499 s, and expired at 11 s. */
  lemma EarlyExample(clock: TimeVal, start: TimeVal)
    requires start == TimeVal(10, 500_000) && clock == TimeVal(11, 0)
    ensures Later(clock, Expiry(start, AppliedDelay(999, 0, 0)))
    ensures Expiry(start, AppliedDelay(999, 0, 0)).Total() == clock.Total() + 499_000
  {
    assert AppliedDelay(999, 0, 0) == 999;
  }

  /** When the order of two expiry dates is not that of time; the first is then due less than a second later. */
  lemma OrderAgainstTime(a: TimeVal, b: TimeVal)
    requires NearlyNormalised(a) && NearlyNormalised(b)
    ensures Later(b, a) && b.Total() < a.Total() <==> b.sec == a.sec + 1 && b.usec + MICROS < a.usec
    ensures !Later(a, b) ==> a.Total() - b.Total() < MICROS
  {
  }

  /** Equal delays leave no room for that: the order is then the order of time. */
  lemma EqualDelaysExpireInTime(a: TimeVal, b: TimeVal, ms: nat)
    requires Normalised(a) && Normalised(b)
    ensures Later(Expiry(a, ms), Expiry(b, ms)) <==> Expiry(a, ms).Total() > Expiry(b, ms).Total()
  {
  }

  /**
   With jitter there is such a pair: of two packets at 10.1 s and 10.5 s, delayed by 1000 ms and 999 ms, the second
   comes first although it is due 399 ms later; and the time-out is then 999 ms although the other is due in 600 ms.
   */
  lemma OvertakingExample(a: TimeVal, b: TimeVal, clock: TimeVal)
    requires clock == TimeVal(10, 500_000) && a == Expiry(clock, 999) && b == Expiry(TimeVal(10, 100_000), 1000)
    ensures Usable(1000, 1) && AppliedDelay(1000, 1, 0) == 999 && AppliedDelay(1000, 1, 1) == 1000
    ensures Later(b, a) && a.Total() == b.Total() + 399_000
    ensures Timeout(a, clock).Total() == 999_000 && b.Total() - clock.Total() == 600_000
  {
    SmallRemainder(2, UINT32);
    assert DelayAsked(1000, 1, 0) == 999 && DelayAsked(1000, 1, 1) == 1000;
    DelayIsAsAsked(1000, 1, 0);
    DelayIsAsAsked(1000, 1, 1);
    hide AppliedDelay, DelayAsked;
    assert a == TimeVal(10, 1_499_000) && b == TimeVal(11, 100_000);
  }

  // ---- the time-out

  /**
   `timeval_diff`: a borrow always takes a second, but is paid out only when seconds are left. So the difference is one
   of time unless the borrow takes the only second, and then it is a second short.
   */
  function Difference(a: TimeVal, b: TimeVal): (c: TimeVal)
    ensures c.Total() == a.Total() - b.Total() <==> !(a.usec < b.usec && a.sec == b.sec + 1)
    ensures a.usec < b.usec && a.sec == b.sec + 1 ==> c.Total() == a.Total() - b.Total() - MICROS
  {
    var sec, usec := a.sec - b.sec, a.usec - b.usec;
    if usec >= 0 then TimeVal(sec, usec)
    else TimeVal(sec - 1, if sec - 1 != 0 then usec + MICROS else usec)
  }

  method TimevalDiff(a: TimeVal, b: TimeVal) returns (c: TimeVal)
    ensures c == Difference(a, b)
    ensures c.Total() == a.Total() - b.Total() - if a.usec < b.usec && a.sec == b.sec + 1 then MICROS else 0
  {
    c := TimeVal(a.sec - b.sec, a.usec - b.usec);
    if c.usec < 0 {
      c := c.(sec := c.sec - 1);
      if c.sec != 0 {
        c := c.(usec := c.usec + MICROS);
      }
    }
  }

  predicate Clamped(d: TimeVal) {
    d.sec < 0 || (d.sec == 0 && d.usec <= 0)
  }

  function Timeout(expiry: TimeVal, clock: TimeVal): TimeVal {
    var d := Difference(expiry, clock);
    if Clamped(d) then TimeVal(0, 1000) else d
  }

  /**
   The time-out is strictly positive and no longer than the time left, or than 1 ms when less is left. It is the time
   left exactly when that is 1 ms already or no clamping takes place; and clamping takes place exactly when the expiry
   date is not later, or the borrow uses up the only second: such a packet is waited for 1 ms at a time.
   */
  lemma TimeoutBounds(expiry: TimeVal, clock: TimeVal)
    requires Normalised(clock) && expiry.usec >= 0
    ensures var t, left := Timeout(expiry, clock).Total(), expiry.Total() - clock.Total();
            && 0 < t && (t <= left || t == 1000)
            && (t == left <==> left == 1000 || !Clamped(Difference(expiry, clock)))
            && (Clamped(Difference(expiry, clock)) <==>
                  !Later(expiry, clock) || (expiry.usec < clock.usec && expiry.sec == clock.sec + 1))
  {
  }

  /**
   Exactly when the time-out for x, which the comparison puts first, outlasts both 1 ms and the time left of y: when y
   is due before x for want of a carry, and the time-out is not clamped but the time left of x, more than 1 ms.
   */
  lemma TimeoutOutlasts(x: TimeVal, y: TimeVal, clock: TimeVal)
    requires Normalised(clock) && NearlyNormalised(x) && NearlyNormalised(y) && !Later(x, y)
    ensures Timeout(x, clock).Total() > 1000 && Timeout(x, clock).Total() > y.Total() - clock.Total()
            <==> && y.sec == x.sec + 1 && y.usec + MICROS < x.usec
                 && !Clamped(Difference(x, clock)) && x.Total() - clock.Total() > 1000
  {
  }
}
