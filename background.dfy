/**
 * The animation state of the hero background: the 0-or-1 pulse slot, the
 * time of the last pulse, the viewport size and the render-loop lifecycle,
 * advanced one frame at a time. Painting is not part of this model; a frame
 * reports only the drift phase it would translate the scene by.
 */
module OmniBackground {
  import opened Wrappers
  import opened Seqs
  import opened HexGrid

  /** A host timestamp in milliseconds; the host clock never reports a negative time. */
  type Millis = r: real | r >= 0.0

  /** Minimum time, in ms, from the start of one pulse before a frame may start the next. */
  const PulseInterval: real := 12000.0
  /** Lifetime of a pulse, in ms. */
  const PulseDuration: real := 3500.0
  /** Period of the ambient drift, in ms. */
  const DriftCycle: real := 200000.0

  datatype Pulse = Pulse(x: real, y: real, startTime: real, duration: real)

  /** The drift of one frame: none, or the fraction of the drift cycle it is at (turned into an offset by sin/cos). */
  datatype Drift = Still | Cycling(phase: real)

  // ---------------------------------------------------------------------------
  // Time arithmetic

  /** Rounding toward zero. */
  function Truncate(q: real): (t: int)
    ensures q >= 0.0 ==> t as real <= q < t as real + 1.0
    ensures q < 0.0 ==> t as real - 1.0 < q <= t as real
  {
    if q >= 0.0 then q.Floor else -((-q).Floor)
  }

  /** JavaScript's `%` on numbers: the remainder of truncating division, with the sign of `x`. */
  function JsRemainder(x: real, m: real): (r: real)
    requires m > 0.0
    ensures x >= 0.0 ==> 0.0 <= r < m
    ensures x < 0.0 ==> -m < r <= 0.0
  {
    RemainderBounds(x, m);
    x - (Truncate(x / m) as real) * m
  }

  /** A product with one non-negative and one positive factor is non-negative, and positive if both are. */
  lemma ProductSign(a: real, b: real)
    requires a >= 0.0 && b > 0.0
    ensures a * b >= 0.0
    ensures a > 0.0 ==> a * b > 0.0
  {
  }

  /** x - t*m lies in [0, m) when t <= x/m < t + 1. */
  lemma RemainderBelow(x: real, m: real, t: real)
    requires m > 0.0 && t <= x / m < t + 1.0
    ensures 0.0 <= x - t * m < m
  {
    var y := x / m;
    assert y * m == x;
    ProductSign(y - t, m);
    ProductSign(t + 1.0 - y, m);
    var d := x - t * m;
    assert (y - t) * m == d;
    assert (t + 1.0 - y) * m == m - d;
    assert m - d > 0.0;
  }

  /** x - t*m lies in (-m, 0] when t - 1 < x/m <= t. */
  lemma RemainderAbove(x: real, m: real, t: real)
    requires m > 0.0 && t - 1.0 < x / m <= t
    ensures -m < x - t * m <= 0.0
  {
    var y := x / m;
    assert y * m == x;
    ProductSign(t - y, m);
    ProductSign(y - (t - 1.0), m);
    var d := x - t * m;
    assert (t - y) * m == -d;
    assert (y - (t - 1.0)) * m == d + m;
    assert d + m > 0.0;
  }

  /** The truncating remainder has the sign of x and magnitude below m. */
  lemma RemainderBounds(x: real, m: real)
    requires m > 0.0
    ensures x >= 0.0 ==> 0.0 <= x - (Truncate(x / m) as real) * m < m
    ensures x < 0.0 ==> -m < x - (Truncate(x / m) as real) * m <= 0.0
  {
    var t := Truncate(x / m);
    if x >= 0.0 {
      assert x / m >= 0.0 by { ProductSign(x / m, m); assert (x / m) * m == x; }
      RemainderBelow(x, m, t as real);
    } else {
      assert x / m < 0.0 by { assert (x / m) * m == x; if x / m >= 0.0 { ProductSign(x / m, m); } }
      RemainderAbove(x, m, t as real);
    }
  }

  lemma CastProduct(a: int, b: int)
    ensures (a * b) as real == (a as real) * (b as real)
  {
  }

  lemma QuotientBounds(x: real, n: int, q: int)
    requires n > 0 && (q * n) as real <= x < ((q + 1) * n) as real
    ensures q as real <= x / n as real < (q + 1) as real
  {
    var y := x / n as real;
    assert y * n as real == x;
  }

  /**
   * For x >= 0 and a whole divisor n, JavaScript's x % n is the whole part of
   * x reduced modulo n plus the fractional part of x.
   */
  lemma RemainderByWhole(x: real, n: int)
    requires x >= 0.0 && n > 0
    ensures JsRemainder(x, n as real) == (x.Floor % n) as real + (x - x.Floor as real)
  {
    var f := x.Floor;
    var q := f / n;
    assert q * n == f - f % n;
    assert (q + 1) * n == q * n + n;
    QuotientBounds(x, n, q);
    assert Truncate(x / n as real) == q;
    CastProduct(q, n);
  }

  /**
   * The origin chooser's index: floor((time / 1000) % n), a valid index into
   * the n eligible nodes.
   */
  function SelectIndex(time: Millis, n: nat): (k: nat)
    requires n > 0
    ensures k < n
  {
    RemainderByWhole(time / 1000.0, n);
    JsRemainder(time / 1000.0, n as real).Floor
  }

  /** The chosen index is the number of whole seconds modulo n. */
  lemma SelectIndexBySeconds(time: Millis, n: nat)
    requires n > 0
    ensures SelectIndex(time, n) == (time / 1000.0).Floor % n
  {
    RemainderByWhole(time / 1000.0, n);
  }

  /** For a whole number of milliseconds t, the chosen index is (t div 1000) mod n. */
  lemma SelectIndexAtWholeMillis(t: nat, n: nat)
    requires n > 0
    ensures SelectIndex(t as real, n) == (t / 1000) % n
  {
    SelectIndexBySeconds(t as real, n);
    var q, r := t / 1000, t % 1000;
    assert t as real / 1000.0 == q as real + r as real / 1000.0;
    assert (t as real / 1000.0).Floor == q;
  }

  /**
   * The fraction of the drift cycle reached `elapsed` ms after start-up:
   * in [0, 1) once time has advanced past the start, and in (-1, 1) always.
   */
  function DriftPhase(elapsed: real): (phase: real)
    ensures elapsed >= 0.0 ==> 0.0 <= phase < 1.0
    ensures -1.0 < phase < 1.0
  {
    JsRemainder(elapsed, DriftCycle) / DriftCycle
  }

  /** A pulse is over once `duration` ms have passed since its start. */
  function Expired(p: Pulse, now: real): (over: bool)
    ensures over <==> p.startTime + p.duration <= now
  {
    !(now - p.startTime < p.duration)
  }

  // ---------------------------------------------------------------------------
  // Pulse origin

  /** A node in the central 60% of the width and 40% of the height can start a pulse. */
  predicate Eligible(node: HexNode, width: nat, height: nat) {
    && node.x > width as real * 0.2 && node.x < width as real * 0.8
    && node.y > height as real * 0.3 && node.y < height as real * 0.7
  }

  /** The eligible nodes, in grid order. */
  function EligibleNodes(nodes: seq<HexNode>, width: nat, height: nat): (e: seq<HexNode>)
    ensures Subsequence(e, nodes)
    ensures forall k :: 0 <= k < |e| ==> e[k] in nodes && Eligible(e[k], width, height)
    ensures forall k :: 0 <= k < |nodes| ==> (nodes[k] in e <==> Eligible(nodes[k], width, height))
  {
    FilterIsSubsequence(nodes, n => Eligible(n, width, height));
    Filter(nodes, n => Eligible(n, width, height))
  }

  /**
   * The node a pulse triggered at `time` starts from: none when no node is
   * eligible; otherwise an eligible grid node, the one at position
   * (whole seconds of `time`) mod (number of eligible nodes) among them.
   */
  function PulseOrigin(nodes: seq<HexNode>, width: nat, height: nat, time: Millis): (o: Option<HexNode>)
    ensures o.None? <==> forall k :: 0 <= k < |nodes| ==> !Eligible(nodes[k], width, height)
    ensures o.Some? ==> o.value in nodes && Eligible(o.value, width, height)
    ensures o.Some? ==>
      var e := EligibleNodes(nodes, width, height);
      |e| > 0 && o.value == e[(time / 1000.0).Floor % |e|]
  {
    var eligible := EligibleNodes(nodes, width, height);
    if |eligible| == 0 then None
    else
      SelectIndexBySeconds(time, |eligible|);
      assert eligible[0] in nodes;
      Some(eligible[SelectIndex(time, |eligible|)])
  }

  // ---------------------------------------------------------------------------
  // The render loop's state

  /**
   * One mounted background: the grid built at start-up, the reduced-motion
   * preference it was started with (a change of preference tears it down and
   * starts a new one), the pulse slot, the viewport and the loop lifecycle.
   */
  class BackgroundLoop {
    const nodes: seq<HexNode>
    const nodeMap: map<Cell, nat>
    const rows: nat
    const cols: nat
    const reducedMotion: bool
    /** Time origin of the drift. */
    const startTime: Millis

    var width: nat
    var height: nat
    var canvasWidth: nat
    var canvasHeight: nat
    var activePulse: Option<Pulse>
    var lastPulseTime: real
    /** An animation frame is requested and not cancelled. */
    var frameScheduled: bool
    /** The window resize listener is registered. */
    var resizeListening: bool
    /** The one-shot start-up pulse timer has not fired yet. */
    var startupPending: bool

    ghost predicate Valid()
      reads this
    {
      && IsGrid(nodes, nodeMap, rows, cols)
      && canvasWidth == width && canvasHeight == height
      && (activePulse.Some? ==> InSlot(activePulse.value))
    }

    /** A pulse in the slot started at the last pulse time, lasts PulseDuration and sits on a grid node. */
    ghost predicate InSlot(p: Pulse)
      reads this
    {
      && p.startTime == lastPulseTime
      && p.duration == PulseDuration
      && exists k :: 0 <= k < |nodes| && nodes[k].x == p.x && nodes[k].y == p.y
    }

    /** The slot after a frame's expiry check: an expired pulse is dropped unless motion is reduced. */
    function AfterExpiry(slot: Option<Pulse>, now: real): (kept: Option<Pulse>)
      ensures kept == None || kept == slot
      ensures kept != slot <==> !reducedMotion && slot.Some? && slot.value.startTime + slot.value.duration <= now
    {
      if !reducedMotion && slot.Some? && Expired(slot.value, now) then None else slot
    }

    /** Mounting: size the canvas, listen for resizes, build the grid, request the first frame and arm the start-up timer. */
    constructor (viewportWidth: nat, viewportHeight: nat, reduced: bool, now: Millis)
      ensures Valid()
      ensures rows == RowCount(viewportHeight) && cols == ColumnCount(viewportWidth)
      ensures width == viewportWidth && height == viewportHeight
      ensures reducedMotion == reduced && startTime == now
      ensures activePulse == None && lastPulseTime == 0.0
      ensures frameScheduled && resizeListening && startupPending
    {
      var grid, lookup := BuildGrid(viewportWidth, viewportHeight);
      nodes, nodeMap := grid, lookup;
      rows, cols := RowCount(viewportHeight), ColumnCount(viewportWidth);
      reducedMotion, startTime := reduced, now;
      width, height := viewportWidth, viewportHeight;
      canvasWidth, canvasHeight := viewportWidth, viewportHeight;
      activePulse, lastPulseTime := None, 0.0;
      frameScheduled, resizeListening, startupPending := true, true, true;
    }

    /**
     * Starts a pulse at `time` from the chosen eligible node, or does nothing
     * when no node is eligible. No check of the interval, the slot or the
     * motion preference happens here.
     */
    method TriggerPulse(time: Millis)
      requires Valid()
      modifies this`activePulse, this`lastPulseTime
      ensures Valid()
      ensures var o := PulseOrigin(nodes, width, height, time);
        if o.Some? then
          activePulse == Some(Pulse(o.value.x, o.value.y, time, PulseDuration)) && lastPulseTime == time
        else
          activePulse == old(activePulse) && lastPulseTime == old(lastPulseTime)
    {
      var eligible := EligibleNodes(nodes, width, height);
      if |eligible| == 0 {
        return;
      }
      var node := eligible[SelectIndex(time, |eligible|)];
      assert node in nodes;
      activePulse := Some(Pulse(node.x, node.y, time, PulseDuration));
      lastPulseTime := time;
    }

    /**
     * The state effects of one animation frame at `now`: the drift it
     * translates by, the expiry of the pulse in the slot, then possibly the
     * start of a new pulse. Painting is not modelled.
     */
    method Frame(now: Millis) returns (drift: Drift)
      requires Valid() && frameScheduled
      modifies this`activePulse, this`lastPulseTime
      ensures Valid()
      ensures drift == if reducedMotion then Still else Cycling(DriftPhase(now - startTime))
      ensures var kept := AfterExpiry(old(activePulse), now);
        var o := PulseOrigin(nodes, width, height, now);
        if !reducedMotion && kept.None? && now - old(lastPulseTime) > PulseInterval && o.Some? then
          activePulse == Some(Pulse(o.value.x, o.value.y, now, PulseDuration)) && lastPulseTime == now
        else
          activePulse == kept && lastPulseTime == old(lastPulseTime)
      // With reduced motion nothing moves, expires or starts.
      ensures reducedMotion ==> drift == Still && activePulse == old(activePulse) && lastPulseTime == old(lastPulseTime)
      // A pulse starts only with motion allowed, the slot free after expiry and the interval strictly exceeded.
      ensures lastPulseTime != old(lastPulseTime) ==>
        && !reducedMotion
        && (old(activePulse).None? || Expired(old(activePulse).value, now))
        && now - old(lastPulseTime) > PulseInterval
        && activePulse.Some? && activePulse.value.startTime == now
      // An unexpired pulse survives the frame untouched.
      ensures old(activePulse).Some? && !Expired(old(activePulse).value, now) ==> activePulse == old(activePulse)
      // An expired pulse does not survive a frame with motion allowed.
      ensures !reducedMotion && old(activePulse).Some? && Expired(old(activePulse).value, now) ==>
        activePulse.None? || activePulse.value.startTime == now
    {
      drift := Still;
      if !reducedMotion {
        drift := Cycling(DriftPhase(now - startTime));
      }
      if activePulse.Some? && !reducedMotion {
        var pulse := activePulse.value;
        if !(now - pulse.startTime < pulse.duration) {
          activePulse := None;
        }
      }
      if !reducedMotion && now - lastPulseTime > PulseInterval && activePulse.None? {
        TriggerPulse(now);
      }
    }

    /** The window resize handler: records the new viewport and resizes the canvas; the grid is not rebuilt. */
    method Resize(viewportWidth: nat, viewportHeight: nat)
      requires Valid() && resizeListening
      modifies this`width, this`height, this`canvasWidth, this`canvasHeight
      ensures Valid()
      ensures width == viewportWidth && height == viewportHeight
      ensures canvasWidth == viewportWidth && canvasHeight == viewportHeight
    {
      width, height := viewportWidth, viewportHeight;
      canvasWidth, canvasHeight := viewportWidth, viewportHeight;
    }

    /** The one-shot start-up timer: triggers a pulse regardless of the slot, the interval and the motion preference. */
    method StartupTimer(now: Millis)
      requires Valid() && startupPending
      modifies this`activePulse, this`lastPulseTime, this`startupPending
      ensures Valid() && !startupPending
      ensures var o := PulseOrigin(nodes, width, height, now);
        if o.Some? then
          activePulse == Some(Pulse(o.value.x, o.value.y, now, PulseDuration)) && lastPulseTime == now
        else
          activePulse == old(activePulse) && lastPulseTime == old(lastPulseTime)
    {
      startupPending := false;
      TriggerPulse(now);
    }

    /**
     * Unmounting: removes the resize listener and cancels the requested frame.
     * The start-up timer is not cancelled. Safe to repeat.
     */
    method Dispose()
      modifies this`frameScheduled, this`resizeListening
      ensures !frameScheduled && !resizeListening
    {
      resizeListening := false;
      if frameScheduled {
        frameScheduled := false;
      }
    }
  }
}
