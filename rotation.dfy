/** The pure part of the auto-rotating "active item" pattern that the Services
    and Testimonials sections share: the update each interval tick applies to
    the active index, a timeless view of one instance's state with the
    transitions that change it, a logical clock that runs the pending interval,
    and the per-tab "is active" flags the sections render from the index. */
module Rotation {

  datatype Option<T> = None | Some(value: T)

  /** The interval callback's update `prev => (prev + 1) % length`. */
  function Next(i: nat, n: nat): (r: nat)
    requires i < n
    ensures r < n
    ensures i + 1 < n ==> r == i + 1
    ensures i + 1 == n ==> r == 0
  {
    (i + 1) % n
  }

  /** The index reached from `j` after `k` interval ticks. */
  function Advance(j: nat, k: nat, n: nat): (r: nat)
    requires j < n
    ensures r < n
    decreases k
  {
    if k == 0 then j else Advance(Next(j, n), k - 1, n)
  }

  lemma {:induction false} MulAtLeast(a: nat, n: nat)
    requires 1 <= a
    ensures n <= a * n
  {
    if a > 1 {
      MulAtLeast(a - 1, n);
      assert a * n == (a - 1) * n + n;
    }
  }

  /** A quotient and a remainder in range determine `%`. */
  lemma ModUnique(x: int, n: int, q: int, r: int)
    requires 0 < n && 0 <= r < n && x == q * n + r
    ensures x % n == r && x / n == q
  {
    var q0, r0 := x / n, x % n;
    assert x == q0 * n + r0;
    assert (q - q0) * n == r0 - r by {
      assert (q - q0) * n == q * n - q0 * n;
    }
    if q > q0 {
      MulAtLeast(q - q0, n);
    } else if q < q0 {
      MulAtLeast(q0 - q, n);
    }
  }

  lemma ModShift(x: nat, n: nat)
    requires 0 < n
    ensures (x + n) % n == x % n
  {
    assert x + n == (x / n + 1) * n + x % n;
    ModUnique(x + n, n, x / n + 1, x % n);
  }

  /** `k` ticks at a fixed cadence from index `j` leave the index at `(j + k) % n`. */
  lemma {:induction false} AdvanceIsModular(j: nat, k: nat, n: nat)
    requires j < n
    ensures Advance(j, k, n) == (j + k) % n
    decreases k
  {
    if k > 0 {
      AdvanceIsModular(Next(j, n), k - 1, n);
      if j + 1 == n {
        ModShift(k - 1, n);
        assert j + k == (k - 1) + n;
      }
    }
  }

  /** One instance's state without the host's handle bookkeeping: the logical
      clock, the active index, and the due time of the pending interval
      (`None` when no interval is live). */
  datatype View = View(now: nat, active: nat, due: Option<nat>)

  /** The index is a valid position and a pending interval lies in the future. */
  predicate WellFormed(v: View, n: nat)
  {
    v.active < n && (v.due.Some? ==> v.now < v.due.value)
  }

  /** The state before the mount effect has run: index 0, no interval. */
  function Initial(now: nat): View
  {
    View(now, 0, None)
  }

  /** `resetTimer`: whatever was pending is cleared and one interval is
      started, first due a full period from now. */
  function Rearmed(v: View, interval: nat): (r: View)
    ensures r.now == v.now && r.active == v.active
    ensures r.due == Some(v.now + interval)
  {
    v.(due := Some(v.now + interval))
  }

  /** `handleTabClick(i)`: set the index to `i`, then `resetTimer`. */
  function Selected(v: View, i: nat, interval: nat): (r: View)
    ensures r.now == v.now && r.active == i
    ensures r.due == Some(v.now + interval)
  {
    Rearmed(v.(active := i), interval)
  }

  /** The effect's cleanup: the pending interval, if any, is cleared. */
  function Disposed(v: View): (r: View)
    ensures r.now == v.now && r.active == v.active && r.due == None
  {
    v.(due := None)
  }

  /** The pending interval fires at its due time: the index moves to the next
      item and, because the interval repeats, the next fire is one period
      after this one. With nothing pending nothing happens. */
  function Fired(v: View, n: nat, interval: nat): (r: View)
    requires v.active < n
    ensures r.active < n
    ensures v.due.None? ==> r == v
    ensures v.due.Some? ==> r.now == v.due.value && r.active == Next(v.active, n)
    ensures v.due.Some? ==> r.due == Some(r.now + interval)
    ensures WellFormed(v, n) && 0 < interval ==> WellFormed(r, n) && v.now <= r.now
  {
    match v.due
    case None => v
    case Some(d) => View(d, Next(v.active, n), Some(d + interval))
  }

  /** Runs the logical clock forward to time `t`, firing the pending interval
      every time its due time is at or before `t`. */
  function RunUntil(v: View, n: nat, interval: nat, t: nat): (r: View)
    requires v.active < n && 0 < interval && v.now <= t
    ensures r.now == t && r.active < n
    ensures r.due.Some? ==> t < r.due.value
    ensures v.due.None? <==> r.due.None?
    decreases if v.due.Some? && v.due.value <= t then t + 1 - v.due.value else 0
  {
    if v.due.Some? && v.due.value <= t then RunUntil(Fired(v, n, interval), n, interval, t)
    else v.(now := t)
  }

  /** How many times an interval first due at `due` and repeating every
      `interval` fires up to and including time `t`. */
  function FireCount(due: Option<nat>, interval: nat, t: nat): nat
    requires 0 < interval
    decreases if due.Some? && due.value <= t then t + 1 - due.value else 0
  {
    if due.Some? && due.value <= t then 1 + FireCount(Some(due.value + interval), interval, t) else 0
  }

  /** The fires counted are exactly the due times `d, d + interval, …` that are
      not after `t`. */
  lemma {:induction false} FireCountBounds(d: nat, interval: nat, t: nat)
    requires 0 < interval
    ensures var k := FireCount(Some(d), interval, t);
      (k == 0 <==> t < d) &&
      (0 < k ==> d + (k - 1) * interval <= t < d + k * interval)
    decreases if d <= t then t + 1 - d else 0
  {
    if d <= t {
      var k' := FireCount(Some(d + interval), interval, t);
      FireCountBounds(d + interval, interval, t);
      assert k' * interval + interval == (k' + 1) * interval;
      if 0 < k' {
        assert (k' - 1) * interval + interval == k' * interval;
      }
    }
  }

  /** Counted from a due time at or before `t`, the number of fires is the
      number of whole periods from that due time to `t`, plus one. */
  lemma FireCountIsQuotient(d: nat, interval: nat, t: nat)
    requires 0 < interval && d <= t
    ensures FireCount(Some(d), interval, t) == (t - d) / interval + 1
  {
    var k := FireCount(Some(d), interval, t);
    FireCountBounds(d, interval, t);
    ModUnique(t - d, interval, k - 1, t - d - (k - 1) * interval);
  }

  /** Running the clock to `t` performs `FireCount` ticks, one after the other. */
  lemma {:induction false} RunUntilTicks(v: View, n: nat, interval: nat, t: nat)
    requires v.active < n && 0 < interval && v.now <= t
    ensures var k := FireCount(v.due, interval, t);
      RunUntil(v, n, interval, t) ==
        View(t, Advance(v.active, k, n), if v.due.Some? then Some(v.due.value + k * interval) else None)
    decreases if v.due.Some? && v.due.value <= t then t + 1 - v.due.value else 0
  {
    if v.due.Some? && v.due.value <= t {
      var d := v.due.value;
      var w := Fired(v, n, interval);
      RunUntilTicks(w, n, interval, t);
      var k' := FireCount(w.due, interval, t);
      assert d + interval + k' * interval == d + (k' + 1) * interval;
    }
  }

  /** Running the clock to `t` advances the index by the number of fires,
      modulo `n`, and leaves the interval due that many periods later. */
  lemma RunUntilClosedForm(v: View, n: nat, interval: nat, t: nat)
    requires v.active < n && 0 < interval && v.now <= t
    ensures var k := FireCount(v.due, interval, t);
      RunUntil(v, n, interval, t) ==
        View(t, (v.active + k) % n, if v.due.Some? then Some(v.due.value + k * interval) else None)
  {
    RunUntilTicks(v, n, interval, t);
    AdvanceIsModular(v.active, FireCount(v.due, interval, t), n);
  }

  /** With no clicks, an instance mounted at time `m` shows, at any later time
      `t`, the item whose position is the number of whole periods since `m`,
      modulo `n`. */
  lemma RotationSinceMount(m: nat, n: nat, interval: nat, t: nat)
    requires 1 <= n && 0 < interval && m <= t
    ensures RunUntil(Rearmed(Initial(m), interval), n, interval, t).active == ((t - m) / interval) % n
  {
    var v := Rearmed(Initial(m), interval);
    RunUntilClosedForm(v, n, interval, t);
    if m + interval <= t {
      FireCountIsQuotient(m + interval, interval, t);
      ModUnique(t - m, interval, (t - m - interval) / interval + 1, (t - m - interval) % interval);
    } else {
      ModUnique(t - m, interval, 0, t - m);
    }
  }

  /** A click always wins: whatever was pending and whichever item was
      active, during the full period after selecting `i` the index stays `i`,
      and the first tick after it comes exactly one period after the click. */
  lemma SelectRestartsCountdown(v: View, i: nat, n: nat, interval: nat, t: nat)
    requires i < n && 0 < interval && v.now <= t
    ensures t < v.now + interval ==>
      RunUntil(Selected(v, i, interval), n, interval, t) == View(t, i, Some(v.now + interval))
    ensures t == v.now + interval ==>
      RunUntil(Selected(v, i, interval), n, interval, t) == View(t, Next(i, n), Some(v.now + 2 * interval))
  {
    var s := Selected(v, i, interval);
    if t == v.now + interval {
      assert Fired(s, n, interval) == View(t, Next(i, n), Some(v.now + 2 * interval));
    }
  }

  /** Re-selecting the active item still restarts the countdown: select `i`,
      wait half a period, select `i` again, wait another half period, and
      the index is still `i`, with the next tick a full period after the
      second click. */
  lemma ReselectRestartsCountdown(v: View, i: nat, n: nat, interval: nat)
    requires i < n && 0 < interval
    ensures var half := interval / 2;
      var first := RunUntil(Selected(v, i, interval), n, interval, v.now + half);
      var second := RunUntil(Selected(first, first.active, interval), n, interval, v.now + half + half);
      first.active == i && second == View(v.now + half + half, i, Some(v.now + half + interval))
  {
    var half := interval / 2;
    SelectRestartsCountdown(v, i, n, interval, v.now + half);
    var first := RunUntil(Selected(v, i, interval), n, interval, v.now + half);
    SelectRestartsCountdown(first, i, n, interval, v.now + half + half);
  }

  /** After cleanup no interval is pending, so however far the clock runs the
      index never changes; cleaning up a second time changes nothing. */
  lemma NothingFiresAfterDispose(v: View, n: nat, interval: nat, t: nat)
    requires v.active < n && 0 < interval && v.now <= t
    ensures RunUntil(Disposed(v), n, interval, t) == View(t, v.active, None)
    ensures Fired(Disposed(v), n, interval) == Disposed(v)
    ensures Disposed(Disposed(v)) == Disposed(v)
  {
  }

  /** With a single item every tick recomputes index 0: the timer keeps
      firing and nothing visible changes. */
  lemma SingleItemStaysAtZero(v: View, interval: nat, t: nat)
    requires v.active < 1 && 0 < interval && v.now <= t
    ensures RunUntil(v, 1, interval, t).active == 0
    ensures v.due.Some? && v.due.value <= t ==> RunUntil(v, 1, interval, t).due != v.due
  {
  }

  /** What a section can do to an instance, one atomic step each. */
  datatype Event = Mount | Elapse(dt: nat) | Click(i: nat) | Unmount

  /** Clicks only ever carry a tab's own position in the list. */
  predicate ValidClicks(es: seq<Event>, n: nat)
  {
    forall k :: 0 <= k < |es| ==> (es[k].Click? ==> es[k].i < n)
  }

  function Step(v: View, e: Event, n: nat, interval: nat): (r: View)
    requires v.active < n && 0 < interval && (e.Click? ==> e.i < n)
    ensures r.active < n
  {
    match e
    case Mount => Rearmed(v, interval)
    case Elapse(dt) => RunUntil(v, n, interval, v.now + dt)
    case Click(i) => Selected(v, i, interval)
    case Unmount => Disposed(v)
  }

  /** The state after a run of events, applied in order. */
  function Replay(v: View, es: seq<Event>, n: nat, interval: nat): (r: View)
    requires v.active < n && 0 < interval && ValidClicks(es, n)
    ensures r.active < n
    decreases |es|
  {
    if es == [] then v else Replay(Step(v, es[0], n, interval), es[1..], n, interval)
  }

  /** Every transition keeps the index in range and any pending interval in
      the future, and the clock never runs backwards. */
  lemma {:induction false} ReplayKeepsWellFormed(v: View, es: seq<Event>, n: nat, interval: nat)
    requires WellFormed(v, n) && 0 < interval && ValidClicks(es, n)
    ensures WellFormed(Replay(v, es, n, interval), n)
    ensures v.now <= Replay(v, es, n, interval).now
    decreases |es|
  {
    if es != [] {
      var w := Step(v, es[0], n, interval);
      assert WellFormed(w, n) && v.now <= w.now;
      assert ValidClicks(es[1..], n) by {
        forall k | 0 <= k < |es[1..]| ensures (es[1..][k].Click? ==> es[1..][k].i < n) {
          assert es[1..][k] == es[k + 1];
        }
      }
      ReplayKeepsWellFormed(w, es[1..], n, interval);
    }
  }

  /** `isActive = i === activeIndex` for each of the `n` tabs, in render order:
      one flag per tab, and tab `i` is flagged exactly when it is the active one. */
  function TabFlags(n: nat, active: nat): (flags: seq<bool>)
    ensures |flags| == n
    ensures forall i :: 0 <= i < n ==> (flags[i] <==> i == active)
  {
    seq(n, i => i == active)
  }

  /** How many tabs carry the active styling. */
  function CountActive(flags: seq<bool>): nat
  {
    if flags == [] then 0 else (if flags[0] then 1 else 0) + CountActive(flags[1..])
  }

  lemma {:induction false} CountOfOnlyTrue(flags: seq<bool>, k: nat)
    requires k < |flags| && flags[k]
    requires forall j :: 0 <= j < |flags| && j != k ==> !flags[j]
    ensures CountActive(flags) == 1
  {
    if k == 0 {
      NoneTrueCountsZero(flags[1..]);
    } else {
      CountOfOnlyTrue(flags[1..], k - 1);
    }
  }

  lemma {:induction false} NoneTrueCountsZero(flags: seq<bool>)
    requires forall j :: 0 <= j < |flags| ==> !flags[j]
    ensures CountActive(flags) == 0
  {
    if flags != [] {
      NoneTrueCountsZero(flags[1..]);
    }
  }

  /** Exactly one tab is marked active. */
  lemma ExactlyOneTabActive(n: nat, active: nat)
    requires active < n
    ensures CountActive(TabFlags(n, active)) == 1
  {
    CountOfOnlyTrue(TabFlags(n, active), active);
  }
}
