/**
 * The shake detector of the mouse monitor, one polling tick at a time, as a
 * pure function of the detector state, the pointer position and the time.
 *
 * Times are whole milliseconds.  A tick reads the pointer, records a direction
 * reversal of at least 31 px per axis and, when it records one, drops the
 * reversals more than 1.5 s old; it reports an axis the first time it has 3
 * of them, and clears both axes once the pointer has been still for more than
 * 0.5 s after a report.
 */
module ShakeModel {

  const DirectionChangeThreshold: nat := 3
  const MinMoveDistance: nat := 30
  const DetectionWindowMs: nat := 1500
  const CooldownAfterStopMs: nat := 500

  /** A recorded reversal: when it happened and the new direction (1 right/down, -1 left/up). */
  datatype Change = Change(t: int, dir: int)

  datatype Axis = Horizontal | Vertical

  /** The per-axis locals: the reversal history, the last direction (0: none yet) and the reported flag. */
  datatype AxisState = AxisState(changes: seq<Change>, lastDir: int, detected: bool)

  /** All the loop-carried locals of the monitor. */
  datatype Detector = Detector(
    prevX: int, prevY: int,
    h: AxisState, v: AxisState,
    lastMoveTime: int,
    inCooldown: bool)

  /** What one tick produces: the new state and the axes it reported, horizontal first. */
  datatype TickResult = TickResult(next: Detector, fired: seq<Axis>)

  const Idle := AxisState([], 0, false)

  /** The state before the first tick: the start position and time, nothing recorded. */
  function Init(x: int, y: int, now: int): (s: Detector)
    ensures s.h == Idle && s.v == Idle && !s.inCooldown
    ensures s.prevX == x && s.prevY == y && s.lastMoveTime == now
  {
    Detector(x, y, Idle, Idle, now, false)
  }

  function Abs(d: int): (r: nat)
    ensures r == d || r == -d
  {
    if d < 0 then -d else d
  }

  /** The direction of a move: 1 for a positive delta, -1 otherwise. */
  function Direction(d: int): (r: int)
    ensures r == 1 || r == -1
    ensures r == 1 <==> d > 0
  {
    if d > 0 then 1 else -1
  }

  /** Keeps the reversals at most 1.5 s old, in their order. */
  function Prune(cs: seq<Change>, now: int): (r: seq<Change>)
    ensures |r| <= |cs|
  {
    if cs == [] then []
    else if now - cs[0].t <= DetectionWindowMs then [cs[0]] + Prune(cs[1..], now)
    else Prune(cs[1..], now)
  }

  /** Pruning keeps exactly the reversals inside the detection window. */
  lemma {:induction false} PruneKeepsRecent(cs: seq<Change>, now: int)
    ensures forall c :: c in Prune(cs, now) <==> c in cs && now - c.t <= DetectionWindowMs
  {
    if cs != [] {
      PruneKeepsRecent(cs[1..], now);
      assert forall c :: c in cs <==> c == cs[0] || c in cs[1..];
    }
  }

  /** Whether a move of delta d counts for an axis. */
  predicate Moves(d: int)
  {
    Abs(d) > MinMoveDistance
  }

  /** Whether a move of delta d reverses the last recorded direction of the axis. */
  predicate Reverses(a: AxisState, d: int)
  {
    Moves(d) && a.lastDir != 0 && Direction(d) != a.lastDir
  }

  /** One axis of a tick: record a reversal (and prune), or adopt the first direction. */
  function Track(a: AxisState, d: int, now: int): (r: AxisState)
    ensures r.detected == a.detected
    ensures Reverses(a, d) ==> r.changes == Prune(a.changes + [Change(now, Direction(d))], now)
    ensures !Reverses(a, d) ==> r.changes == a.changes
    ensures Moves(d) ==> r.lastDir == Direction(d)
    ensures !Moves(d) ==> r == a
  {
    if !Moves(d) then a
    else
      var dir := Direction(d);
      if a.lastDir != 0 && dir != a.lastDir then
        a.(changes := Prune(a.changes + [Change(now, dir)], now), lastDir := dir)
      else if a.lastDir == 0 then a.(lastDir := dir)
      else a
  }

  /** Whether an axis reports in this tick (not in cooldown, not yet reported, enough reversals). */
  predicate Fires(inCooldown: bool, a: AxisState)
  {
    !inCooldown && !a.detected && |a.changes| >= DirectionChangeThreshold
  }

  /** One pass of the polling loop. */
  function Tick(s: Detector, x: int, y: int, now: int): (r: TickResult)
    ensures r.fired == [] || r.fired == [Horizontal] || r.fired == [Vertical] || r.fired == [Horizontal, Vertical]
    ensures r.next.prevX == x && r.next.prevY == y
    ensures !s.inCooldown ==> !r.next.inCooldown
  {
    var dx, dy := x - s.prevX, y - s.prevY;
    var h1, v1 := Track(s.h, dx, now), Track(s.v, dy, now);
    var lastMove := if Moves(dx) || Moves(dy) then now else s.lastMoveTime;
    var fireH, fireV := Fires(s.inCooldown, h1), Fires(s.inCooldown, v1);
    var h2 := if fireH then h1.(detected := true) else h1;
    var v2 := if fireV then v1.(detected := true) else v1;
    var fired := (if fireH then [Horizontal] else []) + (if fireV then [Vertical] else []);
    var reset := now - lastMove > CooldownAfterStopMs && (h2.detected || v2.detected);
    if reset then
      TickResult(Detector(x, y, Idle, Idle, lastMove, false), fired)
    else
      TickResult(Detector(x, y, h2, v2, lastMove, s.inCooldown), fired)
  }

  // ---------------------------------------------------------------------
  // Runs of the polling loop

  datatype Sample = Sample(x: int, y: int, t: int)

  /** The state after polling the samples in order. */
  function Final(s: Detector, samples: seq<Sample>): Detector
    decreases |samples|
  {
    if samples == [] then s
    else
      var last := samples[|samples| - 1];
      Tick(Final(s, samples[..|samples| - 1]), last.x, last.y, last.t).next
  }

  /** The reports made while polling the samples in order. */
  function Events(s: Detector, samples: seq<Sample>): (r: seq<Axis>)
    ensures |r| <= 2 * |samples|
    decreases |samples|
  {
    if samples == [] then []
    else
      var last := samples[|samples| - 1];
      Events(s, samples[..|samples| - 1])
      + Tick(Final(s, samples[..|samples| - 1]), last.x, last.y, last.t).fired
  }

  /** Whether the sample times never go back, starting from t0. */
  predicate MonotoneFrom(t0: int, samples: seq<Sample>)
  {
    (forall i :: 0 <= i < |samples| ==> t0 <= samples[i].t)
    && (forall i, j :: 0 <= i < j < |samples| ==> samples[i].t <= samples[j].t)
  }
}
