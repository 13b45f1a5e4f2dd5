/**
 * `useDebounce` (src/hooks/useDebounce.js) as a timer state machine. Time is a
 * count of abstract ticks. A render with a new value or delay re-runs the
 * effect: the cleanup clears the pending timer and a new one is armed for
 * `delay` ticks later; when a timer expires it publishes the value it captured.
 */
module Debounce {
  import opened Wrappers

  /** The delay used when the caller passes none. */
  const DefaultDelay: nat := 500

  /** A pending `setTimeout`: the value its callback captured and the tick it fires at. */
  datatype Timer<T> = Timer(value: T, due: nat)

  /**
   * Ticks from arming a timer of delay `d` to its firing. A timer callback runs
   * in a later task than the one that armed it, so even a delay of 0 takes a tick.
   */
  function Wait(d: nat): (w: nat)
    ensures w >= 1 && w >= d
  {
    if d == 0 then 1 else d
  }

  class Debouncer<T(==)> {
    /** The input as of the latest render. */
    var value: T
    var delay: nat
    /** The hook's state: the value it returns. */
    var debouncedValue: T
    var pending: Option<Timer<T>>
    var now: nat

    /** Every value the input has held. */
    ghost var held: set<T>
    /** Every value a timer has published, in order. */
    ghost var publications: seq<T>
    /** The tick of the latest effect run (mount or change). */
    ghost var lastChange: nat

    /**
     * The only armed timer is the one the latest effect run created: it carries
     * the current input and fires `Wait(delay)` ticks after that run. With no
     * timer left, the current input has been published. Whatever is returned
     * or was ever published was once an input.
     */
    ghost predicate Valid()
      reads this
    {
      && value in held && debouncedValue in held
      && (forall k :: 0 <= k < |publications| ==> publications[k] in held)
      && lastChange <= now
      && (pending.Some? ==>
            && pending.value.value == value
            && pending.value.due == lastChange + Wait(delay)
            && now < pending.value.due)
      && (pending.None? ==> debouncedValue == value && now >= lastChange + Wait(delay))
    }

    /** The first render: state starts at the input, and the mount effect arms a timer. */
    constructor (initial: T, givenDelay: Option<nat>)
      ensures Valid()
      ensures debouncedValue == initial && value == initial && now == 0 && publications == []
      ensures delay == givenDelay.GetOr(DefaultDelay)
      ensures pending == Some(Timer(initial, Wait(delay)))
      ensures held == {initial}
    {
      var d := givenDelay.GetOr(DefaultDelay);
      value := initial;
      delay := d;
      debouncedValue := initial;
      now := 0;
      pending := Some(Timer(initial, Wait(d)));
      held := {initial};
      publications := [];
      lastChange := 0;
    }

    /**
     * A render with input `v` and delay `d`. If either differs from the last
     * render, the pending timer is cancelled and a fresh one armed; the
     * returned value does not change now.
     */
    method Render(v: T, d: nat)
      requires Valid()
      modifies this
      ensures Valid()
      ensures value == v && delay == d && now == old(now)
      ensures debouncedValue == old(debouncedValue) && publications == old(publications)
      ensures held == old(held) + {v}
      ensures (v != old(value) || d != old(delay)) ==>
        pending == Some(Timer(v, now + Wait(d))) && lastChange == now
      ensures (v == old(value) && d == old(delay)) ==>
        pending == old(pending) && lastChange == old(lastChange)
    {
      held := held + {v};
      if v != value || d != delay {
        value, delay := v, d;
        pending := Some(Timer(v, now + Wait(d)));
        lastChange := now;
      }
    }

    /**
     * One tick passes. A timer that is due fires and publishes its captured
     * value, which is the current input and has been held for `Wait(delay)` ticks.
     */
    method Tick() returns (published: bool)
      requires Valid()
      modifies this
      ensures Valid()
      ensures now == old(now) + 1 && value == old(value) && delay == old(delay)
      ensures lastChange == old(lastChange) && held == old(held)
      ensures published <==> old(pending).Some? && old(pending).value.due <= now
      ensures published ==>
        && debouncedValue == value && pending.None?
        && now == lastChange + Wait(delay)
        && publications == old(publications) + [value]
      ensures !published ==>
        && debouncedValue == old(debouncedValue) && pending == old(pending)
        && publications == old(publications)
    {
      now := now + 1;
      published := false;
      if pending.Some? && pending.value.due <= now {
        debouncedValue := pending.value.value;
        publications := publications + [debouncedValue];
        pending := None;
        published := true;
      }
    }

    /**
     * `n` ticks with no new render. Once `Wait(delay)` ticks have passed since
     * the last change, the returned value equals the input, which has been
     * published once; before that nothing is published.
     */
    method Idle(n: nat)
      requires Valid()
      modifies this
      ensures Valid()
      ensures now == old(now) + n && value == old(value) && delay == old(delay)
      ensures lastChange == old(lastChange) && held == old(held)
      ensures now >= lastChange + Wait(delay) ==> debouncedValue == value
      ensures old(pending).None? ==>
        pending.None? && publications == old(publications) && debouncedValue == old(debouncedValue)
      ensures now < lastChange + Wait(delay) ==>
        debouncedValue == old(debouncedValue) && publications == old(publications) && pending == old(pending)
      ensures old(pending).Some? && now >= lastChange + Wait(delay) ==>
        publications == old(publications) + [value]
    {
      var i := 0;
      while i < n
        invariant Valid()
        invariant 0 <= i <= n
        invariant now == old(now) + i && value == old(value) && delay == old(delay)
        invariant lastChange == old(lastChange) && held == old(held)
        invariant old(pending).None? ==>
          pending.None? && publications == old(publications) && debouncedValue == old(debouncedValue)
        invariant now < lastChange + Wait(delay) ==>
          debouncedValue == old(debouncedValue) && publications == old(publications) && pending == old(pending)
        invariant old(pending).Some? && now >= lastChange + Wait(delay) ==>
          publications == old(publications) + [value]
      {
        var _ := Tick();
        i := i + 1;
      }
    }

    /**
     * A burst: each value is rendered, and fewer than `delay` ticks pass before
     * the next. After the last value the input holds still for the delay. Of
     * the whole burst, only the last value is published, exactly once.
     */
    method Burst(values: seq<T>, gaps: seq<nat>)
      requires Valid()
      requires |values| >= 1 && |gaps| == |values| - 1
      requires forall k :: 0 <= k < |gaps| ==> gaps[k] < delay
      requires values[0] != value
      requires forall k :: 0 <= k < |values| - 1 ==> values[k] != values[k + 1]
      modifies this
      ensures Valid()
      ensures debouncedValue == values[|values| - 1]
      ensures publications == old(publications) + [values[|values| - 1]]
      ensures held == old(held) + set k | 0 <= k < |values| :: values[k]
    {
      var d := delay;
      Render(values[0], d);
      var i := 1;
      while i < |values|
        invariant Valid()
        invariant 1 <= i <= |values|
        invariant delay == d && value == values[i - 1]
        invariant publications == old(publications)
        invariant held == old(held) + set k | 0 <= k < i :: values[k]
        invariant pending == Some(Timer(value, now + Wait(d))) && lastChange == now
      {
        Idle(gaps[i - 1]);
        Render(values[i], d);
        i := i + 1;
      }
      Idle(Wait(d));
    }
  }
}
