/**
 * The pacing of the simulator's run loop. The clock is not modelled: the loop
 * is given the successive readings of the nanosecond counter as a sequence,
 * and the run ends when the readings run out (standing in for the keyboard
 * interrupt that ends the real loop).
 */
module Pacing {

  /** Nanoseconds per second. */
  const Second: int := 1_000_000_000

  /**
   * Integer division rounding towards minus infinity, as Python's `//`
   * does; Dafny's `/` is Euclidean and differs when the divisor is negative.
   */
  function FloorDiv(a: int, b: int): (q: int)
    requires b != 0
    ensures b > 0 ==> q * b <= a < q * b + b
    ensures b < 0 ==> q * b + b < a <= q * b
  {
    if b > 0 || a % b == 0 then a / b else a / b - 1
  }

  /** The minimum time between two ticks, in nanoseconds, for a frame rate `fps`. */
  function Delta(fps: int): int
    requires fps != 0
  {
    FloorDiv(Second, fps)
  }

  /**
   * The number of ticks (draw plus one simulation step) the run loop performs
   * from reading `clock[k]` on, with `tic` the time of the last tick (0
   * meaning "no tick yet"). Each pass reads `toc`; with `tic` = 0 it reads
   * `tic` again and ticks at once, otherwise it ticks only when
   * `toc - tic >= delta`; after a tick it reads the new `tic`.
   */
  function TicksFrom(clock: seq<int>, k: nat, tic: int, delta: int): nat
    decreases |clock| - k
  {
    if k >= |clock| then 0
    else
      var toc := clock[k];
      if tic == 0 then
        if k + 1 == |clock| then 0 else 1 + AfterTick(clock, k + 2, delta)
      else if toc - tic < delta then TicksFrom(clock, k + 1, tic, delta)
      else 1 + AfterTick(clock, k + 1, delta)
  }

  /** The ticks still to come once a tick's work is done and the new `tic` is read from `clock[k]`. */
  function AfterTick(clock: seq<int>, k: nat, delta: int): nat
    decreases |clock| - k, 0
  {
    if k >= |clock| then 0 else TicksFrom(clock, k + 1, clock[k], delta)
  }

  /** The ticks of a whole run fed the readings `clock`. */
  function Ticks(clock: seq<int>, delta: int): nat
  {
    TicksFrom(clock, 0, 0, delta)
  }

  /** From index `k` on, the readings never go backwards and never fall below `tic`. */
  ghost predicate NotBefore(clock: seq<int>, k: nat, tic: int)
  {
    (forall i :: k <= i < |clock| ==> tic <= clock[i])
    && forall i, j :: k <= i < j < |clock| ==> clock[i] <= clock[j]
  }

  /**
   * With a monotonic, positive clock, after a tick at time `tic` every
   * further tick costs at least `delta` nanoseconds: n ticks need n * delta
   * nanoseconds past `tic`. In particular there is never a tick while
   * `toc - tic < delta`.
   */
  lemma {:induction false} TicksArePaced(clock: seq<int>, k: nat, tic: int, delta: int)
    requires tic > 0 && NotBefore(clock, k, tic)
    ensures TicksFrom(clock, k, tic, delta) * delta <= (if k >= |clock| then 0 else clock[|clock| - 1] - tic)
    decreases |clock| - k
  {
    if k < |clock| {
      var toc, last := clock[k], clock[|clock| - 1];
      if toc - tic < delta {
        TicksArePaced(clock, k + 1, tic, delta);
      } else if k + 1 < |clock| {
        var tic' := clock[k + 1];
        assert NotBefore(clock, k + 2, tic');
        TicksArePaced(clock, k + 2, tic', delta);
        var m := TicksFrom(clock, k + 2, tic', delta);
        assert TicksFrom(clock, k, tic, delta) == 1 + m;
        OneMoreTick(m, delta, tic, tic', if k + 2 >= |clock| then tic' else last);
      }
    }
  }

  /** One more tick, `delta` or more after the last, adds `delta` to the time needed. */
  lemma OneMoreTick(m: int, delta: int, tic: int, tic': int, last: int)
    requires m * delta <= last - tic' && delta <= tic' - tic
    ensures (1 + m) * delta <= last - tic
  {
    assert (1 + m) * delta == delta + m * delta;
  }

  /**
   * Once there has been a tick, a reading `delta` or more past the last tick
   * time ends the wait: at least one more tick happens by then.
   */
  lemma {:induction false} TickOnceDeltaPassed(clock: seq<int>, k: nat, tic: int, delta: int, j: nat)
    requires tic != 0 && k <= j < |clock| && clock[j] - tic >= delta
    ensures TicksFrom(clock, k, tic, delta) >= 1
    decreases j - k
  {
    if clock[k] - tic < delta {
      TickOnceDeltaPassed(clock, k + 1, tic, delta, j);
    }
  }

  /** The first tick is immediate: two readings suffice for one draw and step. */
  lemma FirstTickImmediate(clock: seq<int>, delta: int)
    requires |clock| >= 2
    ensures Ticks(clock, delta) >= 1
  {
  }

  /**
   * Once there has been a tick, no further tick happens while every reading
   * is less than `delta` past the last tick time, whatever the readings'
   * order and the signs of `tic` and `delta`.
   */
  lemma {:induction false} NoTickBeforeDelta(clock: seq<int>, k: nat, tic: int, delta: int)
    requires tic != 0
    requires forall i :: k <= i < |clock| ==> clock[i] - tic < delta
    ensures TicksFrom(clock, k, tic, delta) == 0
    decreases |clock| - k
  {
    if k < |clock| {
      NoTickBeforeDelta(clock, k + 1, tic, delta);
    }
  }
}
