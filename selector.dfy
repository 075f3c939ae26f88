/** One mounted instance of the auto-rotating pattern, as the sections hold it:
    the `activeIndex` state, the `timerRef` that remembers the last interval
    handle, and the host's table of live intervals, which `setInterval` and
    `clearInterval` change. Each handler runs as one atomic step against a
    logical clock. */
module Selector {
  import opened Rotation

  /** Every handle in the host's table of live intervals is the one the
      instance remembers, so at most one interval is live. */
  lemma AtMostOneLive(live: map<nat, nat>, timerRef: Option<nat>)
    requires forall h :: h in live ==> timerRef == Some(h)
    ensures |live| <= 1
  {
    if timerRef.Some? && timerRef.value in live {
      assert live.Keys == {timerRef.value};
    } else {
      assert live.Keys == {};
    }
  }

  class RotatingSelector {
    /** The number of items, captured once when the instance is created. */
    const n: nat
    /** The period of the repeating interval. */
    const interval: nat
    /** The logical clock. */
    var now: nat
    var activeIndex: nat
    /** `timerRef.current`: the last handle `setInterval` returned, or `None`
        for the initial `null`. Cleanup does not reset it. */
    var timerRef: Option<nat>
    /** The host's live intervals: handle to the time the next fire is due. */
    var live: map<nat, nat>
    /** The handle the host's next `setInterval` hands out; handles start at 1. */
    var nextHandle: nat

    ghost predicate Valid()
      reads this
    {
      1 <= n && 0 < interval && activeIndex < n && 1 <= nextHandle &&
      (forall h :: h in live ==> timerRef == Some(h)) &&
      (timerRef.Some? ==> 1 <= timerRef.value < nextHandle) &&
      (forall h :: h in live ==> now < live[h])
    }

    /** Due time of the live interval, if any. */
    function Due(): Option<nat>
      reads this
    {
      if timerRef.Some? && timerRef.value in live then Some(live[timerRef.value]) else None
    }

    /** The instance's state as the pure model sees it. */
    function View(): Rotation.View
      reads this
    {
      Rotation.View(now, activeIndex, Due())
    }

    /** First render: index 0, no interval yet, `timerRef` still `null`. */
    constructor (count: nat, period: nat)
      requires 1 <= count && 0 < period
      ensures Valid()
      ensures n == count && interval == period
      ensures View() == Initial(0)
      ensures timerRef == None && live == map[]
    {
      n, interval := count, period;
      now, activeIndex := 0, 0;
      timerRef, live, nextHandle := None, map[], 1;
    }

    /** The host's `clearInterval(h)`; a handle that is not live is ignored. */
    method ClearInterval(h: nat)
      modifies this`live
      ensures live == old(live) - {h}
    {
      live := live - {h};
    }

    /** The host's `setInterval`: a fresh handle, first due at `due`. */
    method SetInterval(due: nat) returns (h: nat)
      modifies this`live, this`nextHandle
      ensures h == old(nextHandle) && nextHandle == h + 1
      ensures live == old(live)[h := due]
    {
      h := nextHandle;
      nextHandle := nextHandle + 1;
      live := live[h := due];
    }

    /** `resetTimer`: clear the remembered interval if there is one, then start
        a new one and remember it. */
    method ResetTimer()
      requires Valid()
      modifies this
      ensures Valid()
      ensures View() == Rearmed(old(View()), interval)
      ensures timerRef == Some(old(nextHandle)) && live == map[old(nextHandle) := now + interval]
      ensures now == old(now) && activeIndex == old(activeIndex)
    {
      if timerRef.Some? {
        ClearInterval(timerRef.value);
      }
      assert live == map[];
      var h := SetInterval(now + interval);
      timerRef := Some(h);
    }

    /** The mount effect: `resetTimer()`. */
    method Mount()
      requires Valid()
      modifies this
      ensures Valid()
      ensures View() == Rearmed(old(View()), interval)
      ensures |live| == 1
    {
      ResetTimer();
    }

    /** `handleTabClick(i)`: `setActiveIndex(i)`, then `resetTimer()`. */
    method Select(i: nat)
      requires Valid() && i < n
      modifies this
      ensures Valid()
      ensures View() == Selected(old(View()), i, interval)
      ensures activeIndex == i && Due() == Some(now + interval) && |live| == 1
    {
      activeIndex := i;
      ResetTimer();
    }

    /** The effect's cleanup: `clearInterval(timerRef.current)` when the ref is
        set. The ref keeps its stale handle, so a second cleanup clears a
        handle that is no longer live and changes nothing. */
    method Dispose()
      requires Valid()
      modifies this
      ensures Valid()
      ensures View() == Disposed(old(View()))
      ensures live == map[] && timerRef == old(timerRef) && nextHandle == old(nextHandle)
    {
      if timerRef.Some? {
        ClearInterval(timerRef.value);
      }
    }

    /** The host runs the live interval at its due time:
        `setActiveIndex(prev => (prev + 1) % length)`. The interval stays live
        and is next due one period later. With no live interval nothing runs. */
    method Fire()
      requires Valid()
      modifies this
      ensures Valid()
      ensures View() == Fired(old(View()), n, interval)
      ensures timerRef == old(timerRef) && live.Keys == old(live.Keys) && nextHandle == old(nextHandle)
    {
      if timerRef.Some? && timerRef.value in live {
        var h := timerRef.value;
        var d := live[h];
        now := d;
        activeIndex := (activeIndex + 1) % n;
        live := live[h := d + interval];
      }
    }

    /** Lets `dt` time units pass, running every fire that falls due meanwhile. */
    method AdvanceClock(dt: nat)
      requires Valid()
      modifies this
      ensures Valid()
      ensures View() == RunUntil(old(View()), n, interval, old(now) + dt)
      ensures timerRef == old(timerRef) && live.Keys == old(live.Keys) && nextHandle == old(nextHandle)
    {
      var target := now + dt;
      while Due().Some? && Due().value <= target
        invariant Valid() && now <= target
        invariant RunUntil(View(), n, interval, target) == RunUntil(old(View()), n, interval, target)
        invariant timerRef == old(timerRef) && live.Keys == old(live.Keys) && nextHandle == old(nextHandle)
        decreases if Due().Some? && Due().value <= target then target + 1 - Due().value else 0
      {
        Fire();
      }
      now := target;
    }

    /** However the instance got here, at most one interval is live. */
    lemma OneLiveInterval()
      requires Valid()
      ensures |live| <= 1
    {
      AtMostOneLive(live, timerRef);
    }
  }
}
