/**
  * Interval and one-shot timers of `kernel-core/src/timerfd.rs`, and the timer object of
  * `kernel/src/timerfd.rs` that reads them.
  */
module TimerFds {
  import opened Division
  import opened Limits
  import opened Options

  const NS_PER_TICK: nat := 1_000_000

  datatype Expiry = Expiry(count: nat, next: nat)

  function Periods(elapsed: nat, interval: nat): nat {
    if interval == 0 then 0 else elapsed / interval
  }

  /** The count is a `u64`; its one overflowing sum wraps to zero. */
  function Expirations(now: nat, expiry: nat, interval: nat): Option<Expiry> {
    if now < expiry then None
    else
      var count := (1 + Periods(now - expiry, interval)) % (U64_MAX + 1);
      Some(Expiry(count, Clamp(expiry + Clamp(count * interval, U64_MAX), U64_MAX)))
  }

  function Remaining(now: nat, armed: bool, expiry: nat, interval: nat): nat {
    if !armed then 0
    else if now < expiry then expiry - now
    else
      match Expirations(now, expiry, interval)
      case Some(e) => if interval != 0 && e.next >= now then e.next - now else 0
      case None => 0
  }

  // ---- what a timer should count ----

  /** Deadlines `expiry`, `expiry + interval`, ... that lie at or before `now`, one at a time. */
  function Fired(expiry: nat, interval: nat, now: nat): nat
    decreases if now < expiry then 0 else now - expiry + 1
  {
    if now < expiry then 0
    else if interval == 0 then 1
    else 1 + Fired(expiry + interval, interval, now)
  }

  lemma {:induction false} FiredClosed(expiry: nat, interval: nat, now: nat)
    requires expiry <= now
    ensures Fired(expiry, interval, now) == 1 + Periods(now - expiry, interval)
    decreases now - expiry
  {
    if interval > 0 {
      if now < expiry + interval {
        QuotientUnique(now - expiry, interval, 0, now - expiry);
      } else {
        FiredClosed(expiry + interval, interval, now);
        DivideOneLess(now - expiry, interval);
      }
    }
  }

  /** Dropping deadlines that have passed. */
  lemma {:induction false} FiredAfter(expiry: nat, interval: nat, k: nat, now: nat)
    requires interval > 0
    requires k > 0 ==> expiry + (k - 1) * interval <= now
    ensures Fired(expiry, interval, now) == k + Fired(expiry + k * interval, interval, now)
    decreases k
  {
    if k > 0 {
      assert (k - 1) * interval == interval + (k - 2) * interval;
      assert k * interval == interval + (k - 1) * interval;
      if k > 1 {
        assert (k - 2) * interval >= 0;
      }
      FiredAfter(expiry + interval, interval, k - 1, now);
    }
  }

  /** The count brackets `now` between two consecutive deadlines. */
  lemma CountBrackets(expiry: nat, interval: nat, now: nat)
    requires interval > 0 && expiry <= now
    ensures var k := Fired(expiry, interval, now);
      k >= 1 && expiry + (k - 1) * interval <= now < expiry + k * interval <= now + interval
  {
    FiredClosed(expiry, interval, now);
    var q := (now - expiry) / interval;
    assert now - expiry == q * interval + (now - expiry) % interval;
    assert (q + 1) * interval == q * interval + interval;
  }

  // ---- one evaluation ----

  lemma FewPeriods(elapsed: nat, interval: nat)
    requires elapsed <= U64_MAX
    ensures interval == 1 ==> Periods(elapsed, interval) == elapsed
    ensures interval != 1 ==> Periods(elapsed, interval) < U64_MAX
  {
    if interval == 1 {
      QuotientUnique(elapsed, 1, elapsed, 0);
    } else if interval > 1 {
      var q := elapsed / interval;
      assert elapsed == q * interval + elapsed % interval;
      assert interval * q == (interval - 2) * q + 2 * q;
      assert (interval - 2) * q >= 0;
    }
  }

  /** The reported count is the number of deadlines passed, except for one input where it wraps. */
  lemma CountIsFired(now: nat, expiry: nat, interval: nat)
    requires expiry <= now <= U64_MAX
    ensures Expirations(now, expiry, interval).Some?
    ensures Expirations(now, expiry, interval).value.count == Fired(expiry, interval, now)
      <==> !(now == U64_MAX && expiry == 0 && interval == 1)
  {
    FiredClosed(expiry, interval, now);
    FewPeriods(now - expiry, interval);
    var count := 1 + Periods(now - expiry, interval);
    assert count <= U64_MAX + 1;
  }

  /** Re-basing lands strictly after `now` and within one period of it, except at the last tick. */
  lemma NextIsAhead(now: nat, expiry: nat, interval: nat)
    requires expiry <= now <= U64_MAX && interval > 0
    ensures var e := Expirations(now, expiry, interval).value; now < e.next <==> now < U64_MAX
    ensures now < U64_MAX ==> Expirations(now, expiry, interval).value.next <= now + interval
    ensures now < U64_MAX ==>
      Expirations(now, expiry, interval).value.next == Clamp(expiry + Fired(expiry, interval, now) * interval, U64_MAX)
  {
    if now < U64_MAX {
      CountIsFired(now, expiry, interval);
      CountBrackets(expiry, interval, now);
    }
  }

  /** Nothing is reported for a disarmed timer, a one-shot that has fired, and any fired timer at the last tick. */
  lemma NothingRemains(now: nat, armed: bool, expiry: nat, interval: nat)
    requires now <= U64_MAX
    ensures Remaining(now, armed, expiry, interval) == 0 <==>
      !armed || (expiry <= now && (interval == 0 || now == U64_MAX))
  {
    if armed && expiry <= now && interval > 0 {
      NextIsAhead(now, expiry, interval);
    }
  }

  /** What `timerfd_gettime` reports: no deadline falls before it elapses, and one does as it elapses unless the
      clock ends first. */
  lemma RemainingIsNext(now: nat, expiry: nat, interval: nat)
    requires now <= U64_MAX && expiry <= U64_MAX
    ensures var r := Remaining(now, true, expiry, interval);
      r > 0 ==>
        && now + r <= U64_MAX
        && Fired(expiry, interval, now + r - 1) == Fired(expiry, interval, now)
        && (Fired(expiry, interval, now + r) == Fired(expiry, interval, now) + 1
            <==> Fired(expiry, interval, U64_MAX) > Fired(expiry, interval, now))
  {
    var r := Remaining(now, true, expiry, interval);
    NothingRemains(now, true, expiry, interval);
    if r > 0 && now < expiry {
      FirstDeadline(expiry, interval, U64_MAX);
    } else if r > 0 {
      NextIsAhead(now, expiry, interval);
      NextDeadline(now, expiry, interval, now + r);
    }
  }

  lemma FirstDeadline(expiry: nat, interval: nat, last: nat)
    requires expiry <= last
    ensures Fired(expiry, interval, expiry) == 1 && Fired(expiry, interval, last) >= 1
  {
    FiredClosed(expiry, interval, expiry);
    FiredClosed(expiry, interval, last);
    if interval > 0 {
      QuotientUnique(0, interval, 0, 0);
    }
  }

  /** Up to the next deadline, or the end of the clock, nothing more fires. */
  lemma NextDeadline(now: nat, expiry: nat, interval: nat, next: nat)
    requires expiry <= now < U64_MAX && interval > 0
    requires next == Clamp(expiry + Fired(expiry, interval, now) * interval, U64_MAX)
    ensures now < next
    ensures Fired(expiry, interval, next - 1) == Fired(expiry, interval, now)
    ensures Fired(expiry, interval, next) == Fired(expiry, interval, now) + 1
      <==> Fired(expiry, interval, U64_MAX) > Fired(expiry, interval, now)
  {
    CountBrackets(expiry, interval, now);
    var k := Fired(expiry, interval, now);
    var due := expiry + k * interval;
    FiredAfter(expiry, interval, k, next - 1);
    FiredAfter(expiry, interval, k, next);
    FiredAfter(expiry, interval, k, U64_MAX);
    if due <= U64_MAX {
      FirstDeadline(due, interval, U64_MAX);
    }
  }

  // ---- reading over time ----

  datatype Timer = Timer(armed: bool, expiry: nat, interval: nat)

  predicate TimerOk(t: Timer) {
    t.expiry <= U64_MAX && t.interval <= U64_MAX
  }

  function ReadCount(t: Timer, now: nat): nat {
    if t.armed && t.expiry <= now then Expirations(now, t.expiry, t.interval).value.count else 0
  }

  function AfterRead(t: Timer, now: nat): Timer {
    if !t.armed || now < t.expiry then t
    else if t.interval == 0 then t.(armed := false)
    else t.(expiry := Expirations(now, t.expiry, t.interval).value.next)
  }

  /** Expirations delivered by reads at these times. */
  function Delivered(t: Timer, times: seq<nat>): nat
    decreases |times|
  {
    if times == [] then 0
    else ReadCount(t, times[0]) + Delivered(AfterRead(t, times[0]), times[1..])
  }

  predicate Ascending(times: seq<nat>) {
    forall i, j :: 0 <= i < j < |times| ==> times[i] <= times[j]
  }

  /** The expirations a timer owes by `now`. */
  function Owed(t: Timer, now: nat): nat {
    if t.armed then Fired(t.expiry, t.interval, now) else 0
  }

  /** One read delivers what is owed so far and leaves exactly the rest. */
  lemma ReadSplits(t: Timer, now: nat, last: nat)
    requires now <= last <= U64_MAX
    requires t.interval == 0 || last < U64_MAX
    ensures ReadCount(t, now) == Owed(t, now)
    ensures Owed(t, last) == ReadCount(t, now) + Owed(AfterRead(t, now), last)
  {
    if t.armed && t.expiry <= now {
      CountIsFired(now, t.expiry, t.interval);
      if t.interval > 0 {
        NextIsAhead(now, t.expiry, t.interval);
        CountBrackets(t.expiry, t.interval, now);
        FiredAfter(t.expiry, t.interval, Fired(t.expiry, t.interval, now), last);
      }
    }
  }

  /** Whatever the reading pattern, no expiration is lost or delivered twice. */
  lemma {:induction false} ReadsExact(t: Timer, times: seq<nat>)
    requires Ascending(times) && times != []
    requires times[|times| - 1] <= U64_MAX
    requires t.interval == 0 || times[|times| - 1] < U64_MAX
    ensures Delivered(t, times) == Owed(t, times[|times| - 1])
    decreases |times|
  {
    var last := times[|times| - 1];
    ReadSplits(t, times[0], last);
    var rest := AfterRead(t, times[0]);
    if |times| == 1 {
      assert Delivered(rest, times[1..]) == 0;
    } else {
      assert rest.interval == t.interval;
      ReadsExact(rest, times[1..]);
    }
  }

  /** At the last tick an interval timer is re-based onto `now` itself, and fires again. */
  lemma LastTickMiscounts(t: Timer, now: nat)
    requires TimerOk(t) && t.armed && t.interval > 0 && now == U64_MAX
    ensures Delivered(t, [now, now]) != Owed(t, now)
  {
    DeliveredTwice(t, now);
    CountIsFired(now, t.expiry, t.interval);
    if t.expiry == 0 && t.interval == 1 {
      WrappedCount(t, now);
    } else {
      RebasedOntoLastTick(t, now);
      CountIsFired(now, now, t.interval);
      FiredClosed(now, t.interval, now);
    }
  }

  lemma WrappedCount(t: Timer, now: nat)
    requires t.armed && t.expiry == 0 && t.interval == 1 && now == U64_MAX
    ensures ReadCount(t, now) == 0 && AfterRead(t, now) == t && Owed(t, now) > 0
  {
    FewPeriods(now, 1);
    FiredClosed(t.expiry, t.interval, now);
  }

  /** A read at the last tick leaves an interval timer owing again. */
  lemma LastTickOwes(t: Timer, now: nat)
    requires TimerOk(t) && t.armed && t.interval > 0 && now == U64_MAX
    ensures ReadCount(t, now) == Owed(t, now) <==> !(t.expiry == 0 && t.interval == 1)
    ensures Owed(AfterRead(t, now), now) > 0
  {
    CountIsFired(now, t.expiry, t.interval);
    if t.expiry == 0 && t.interval == 1 {
      WrappedCount(t, now);
    } else {
      RebasedOntoLastTick(t, now);
    }
  }

  lemma DeliveredTwice(t: Timer, now: nat)
    ensures Delivered(t, [now, now]) == ReadCount(t, now) + ReadCount(AfterRead(t, now), now)
  {
    assert [now, now][1..] == [now];
    assert Delivered(AfterRead(t, now), [now]) == ReadCount(AfterRead(t, now), now) + Delivered(AfterRead(AfterRead(t, now), now), []);
  }

  lemma RebasedOntoLastTick(t: Timer, now: nat)
    requires now == U64_MAX && TimerOk(t) && t.armed && t.interval > 0 && !(t.expiry == 0 && t.interval == 1)
    ensures AfterRead(t, now) == t.(expiry := now)
  {
    CountIsFired(now, t.expiry, t.interval);
    CountBrackets(t.expiry, t.interval, now);
  }

  /** Counting is exact over all reading patterns up to `bound` exactly when `bound` is not the last tick. */
  lemma ExactIff(t: Timer, bound: nat)
    requires TimerOk(t) && t.armed && bound <= U64_MAX
    ensures (forall times: seq<nat> | times != [] && Ascending(times) && times[|times| - 1] <= bound ::
               Delivered(t, times) == Owed(t, times[|times| - 1]))
            <==> (t.interval == 0 || bound < U64_MAX)
  {
    if t.interval == 0 || bound < U64_MAX {
      forall times: seq<nat> | times != [] && Ascending(times) && times[|times| - 1] <= bound
        ensures Delivered(t, times) == Owed(t, times[|times| - 1])
      {
        ReadsExact(t, times);
      }
    } else {
      LastTickMiscounts(t, bound);
      var bad: seq<nat> := [bound, bound];
      assert Ascending(bad) && bad[|bad| - 1] == bound;
    }
  }

  // ---- the timer object ----

  class TimerFd {
    var timer: Timer

    constructor ()
      ensures timer == Timer(false, 0, 0)
    {
      timer := Timer(false, 0, 0);
    }

    /** Re-arms the timer. The old setting owes nothing more before `left` elapses, and the new one starts afresh. */
    method SetTime(armed: bool, expiry: nat, interval: nat, now: nat) returns (left: nat, period: nat)
      requires TimerOk(timer) && now <= U64_MAX && expiry <= U64_MAX && interval <= U64_MAX
      modifies this
      ensures timer == Timer(armed, expiry, interval) && TimerOk(timer)
      ensures period == old(timer).interval
      ensures left == 0 <==>
        !old(timer).armed || (old(timer).expiry <= now && (old(timer).interval == 0 || now == U64_MAX))
      ensures left > 0 ==> Owed(old(timer), now + left - 1) == Owed(old(timer), now)
      ensures left > 0 ==> (Owed(old(timer), now + left) == Owed(old(timer), now) + 1
        <==> Owed(old(timer), U64_MAX) > Owed(old(timer), now))
    {
      left := Remaining(now, timer.armed, timer.expiry, timer.interval);
      NothingRemains(now, timer.armed, timer.expiry, timer.interval);
      RemainingIsNext(now, timer.expiry, timer.interval);
      period := timer.interval;
      timer := Timer(armed, expiry, interval);
    }

    /** A read reports what is owed, or would block, and keeps the account of the rest. */
    method Read(now: nat) returns (count: Option<nat>)
      requires TimerOk(timer) && now <= U64_MAX
      modifies this
      ensures timer == AfterRead(old(timer), now) && TimerOk(timer)
      ensures count.Some? <==> old(timer).armed && old(timer).expiry <= now
      ensures count.Some? ==> count.value == ReadCount(old(timer), now)
      ensures now < U64_MAX || old(timer).interval == 0 ==>
        && (count.Some? <==> Owed(old(timer), now) > 0)
        && (count.Some? ==> count.value == Owed(old(timer), now))
        && Owed(timer, now) == 0
      ensures now == U64_MAX && old(timer).interval > 0 && old(timer).armed ==>
        && count.Some?
        && (count.value == Owed(old(timer), now) <==> !(old(timer).expiry == 0 && old(timer).interval == 1))
        && Owed(timer, now) > 0
    {
      if now < U64_MAX || timer.interval == 0 {
        ReadSplits(timer, now, now);
      } else if timer.armed {
        LastTickOwes(timer, now);
      }
      if !timer.armed {
        return None;
      }
      var e := Expirations(now, timer.expiry, timer.interval);
      if e.None? {
        return None;
      }
      if timer.interval == 0 {
        timer := timer.(armed := false);
      } else {
        timer := timer.(expiry := e.value.next);
      }
      count := Some(e.value.count);
    }
  }

  // ---- nanoseconds and ticks ----

  function NsToTicksCeil(ns: nat): nat {
    if ns == 0 then 0 else Clamp(ns + (NS_PER_TICK - 1), U64_MAX) / NS_PER_TICK
  }

  function TicksToNs(ticks: nat): nat {
    Clamp(ticks * NS_PER_TICK, U64_MAX)
  }

  /** The last nanosecond count that is a whole number of ticks. */
  const LAST_WHOLE_TICK_NS: nat := 18446744073709 * NS_PER_TICK

  /** A converted duration never elapses early and is less than a tick late, below the last whole tick. */
  lemma NeverEarly(ns: nat)
    requires ns <= U64_MAX
    ensures NsToTicksCeil(ns) * NS_PER_TICK >= ns <==> ns <= LAST_WHOLE_TICK_NS
    ensures NsToTicksCeil(ns) * NS_PER_TICK < ns + NS_PER_TICK
    ensures ns > LAST_WHOLE_TICK_NS ==> NsToTicksCeil(ns) == 18446744073709
    ensures ns > 0 ==> NsToTicksCeil(ns) > 0
  {
  }

  /** A tick is a millisecond; what does not fit a `u64` of nanoseconds saturates. */
  lemma TickIsMillisecond(ticks: nat)
    ensures TicksToNs(ticks) == if ticks <= 18446744073709 then ticks * 1_000_000 else U64_MAX
    ensures NsToTicksCeil(TicksToNs(ticks)) == if ticks <= 18446744073709 then ticks else 18446744073709
  {
  }

  /** Whole ticks survive the trip through nanoseconds exactly when they fit. */
  lemma TicksRoundTrip(ticks: nat)
    requires ticks <= U64_MAX
    ensures NsToTicksCeil(TicksToNs(ticks)) == ticks <==> ticks * NS_PER_TICK <= U64_MAX
  {
  }
}
