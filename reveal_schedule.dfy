/**
 * The even spacing of the staged reveal: with `n` sorted records,
 * `createMeshAnimation` sets one timer per record, the record at rank `i`
 * is given the delay `i * (10000 / n)` milliseconds.
 */
module RevealSchedule {
  import opened IfcTypes

  /** The reveal window in milliseconds. */
  const RevealWindow: real := 10000.0

  /** The delay of rank `i` among `n` records. */
  function Delay(i: nat, n: nat): real
    requires i < n
  {
    i as real * (RevealWindow / n as real)
  }

  /** Every delay falls inside the reveal window, the first one at its start. */
  lemma DelayInWindow(i: nat, n: nat)
    requires i < n
    ensures 0.0 <= Delay(i, n) < RevealWindow
    ensures i == 0 ==> Delay(i, n) == 0.0
  {
    var q := RevealWindow / n as real;
    assert q * n as real == RevealWindow;
    assert i as real * q < n as real * q by {
      assert (n as real - i as real) * q > 0.0;
    }
  }

  /** A later rank gets a strictly larger delay. */
  lemma DelaysIncrease(i: nat, j: nat, n: nat)
    requires i < j < n
    ensures Delay(i, n) < Delay(j, n)
  {
    var q := RevealWindow / n as real;
    assert (j as real - i as real) * q > 0.0;
  }

  /** Consecutive ranks are one `10000 / n` apart. */
  lemma DelaySpacing(i: nat, n: nat)
    requires i + 1 < n
    ensures Delay(i + 1, n) - Delay(i, n) == RevealWindow / n as real
  {
    var q := RevealWindow / n as real;
    assert (i + 1) as real * q == i as real * q + q;
  }

  /** The timers of the reveal: one per record, in order, each building that record's mesh. */
  function Timeline(sorted: seq<KeyedGeometry>): (timers: seq<Deferred>)
    ensures |timers| == |sorted|
    ensures forall i :: 0 <= i < |timers| ==> timers[i].geometry == Unkeyed(sorted[i])
  {
    var n := |sorted|;
    seq(n, i requires 0 <= i < n => Deferred(Delay(i, n), Unkeyed(sorted[i])))
  }

  /**
   * The delays are spread evenly over the window: the first is 0, each
   * later one `10000 / n` above the one before, so they strictly increase
   * and all stay below the window's end.
   */
  lemma TimelineIsEven(sorted: seq<KeyedGeometry>)
    ensures forall i :: 0 <= i < |sorted| ==> 0.0 <= Timeline(sorted)[i].delay < RevealWindow
    ensures |sorted| > 0 ==> Timeline(sorted)[0].delay == 0.0
    ensures forall i, j :: 0 <= i < j < |sorted| ==> Timeline(sorted)[i].delay < Timeline(sorted)[j].delay
    ensures forall i :: 0 <= i < |sorted| - 1 ==>
              Timeline(sorted)[i + 1].delay - Timeline(sorted)[i].delay == RevealWindow / |sorted| as real
  {
    var n, timers := |sorted|, Timeline(sorted);
    forall i | 0 <= i < n ensures 0.0 <= timers[i].delay < RevealWindow {
      DelayInWindow(i, n);
    }
    if n > 0 {
      DelayInWindow(0, n);
    }
    forall i, j | 0 <= i < j < n ensures timers[i].delay < timers[j].delay {
      DelaysIncrease(i, j, n);
    }
    forall i | 0 <= i < n - 1 ensures timers[i + 1].delay - timers[i].delay == RevealWindow / n as real {
      DelaySpacing(i, n);
    }
  }

  /**
   * `meshData.forEach((v, i) => setTimeout(..., msec * i))` with
   * `msec = 10000 / meshData.length`: one timer per record, in order.
   */
  method ScheduleReveal(meshData: seq<KeyedGeometry>) returns (timers: seq<Deferred>)
    ensures timers == Timeline(meshData)
  {
    var n := |meshData|;
    // With no records JavaScript computes Infinity here; no timer ever reads it.
    var msec := if n == 0 then 0.0 else RevealWindow / n as real;
    timers := [];
    for i := 0 to n
      invariant |timers| == i
      invariant forall k :: 0 <= k < i ==> timers[k] == Deferred(Delay(k, n), Unkeyed(meshData[k]))
    {
      var v := meshData[i];
      timers := timers + [Deferred(msec * i as real, Unkeyed(v))];
    }
  }
}
