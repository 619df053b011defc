/**
 * What the shake detector guarantees: the state invariant every tick keeps,
 * exactly when an axis is reported, when the reports are cleared, and what
 * whole runs of the polling loop can and cannot report.
 */
module ShakeProps {
  import opened ShakeModel

  // ---------------------------------------------------------------------
  // The state invariant

  predicate Sorted(cs: seq<Change>)
  {
    forall i, j :: 0 <= i < j < |cs| ==> cs[i].t <= cs[j].t
  }

  /** Consecutive entries record opposite directions. */
  predicate Alternating(cs: seq<Change>)
  {
    forall i :: 0 <= i < |cs| - 1 ==> cs[i].dir != cs[i + 1].dir
  }

  /** Every entry is at most 1.5 s older than the newest one. */
  predicate Windowed(cs: seq<Change>)
  {
    cs != [] ==> forall i :: 0 <= i < |cs| ==> cs[|cs| - 1].t - cs[i].t <= DetectionWindowMs
  }

  /** The shape of one axis between ticks, whatever its report flag. */
  predicate AxisShape(a: AxisState, lastMove: int)
  {
    && -1 <= a.lastDir <= 1
    && (a.lastDir == 0 ==> a.changes == [] && !a.detected)
    && (a.changes != [] ==> a.changes[|a.changes| - 1].dir == a.lastDir)
    && Sorted(a.changes) && Alternating(a.changes) && Windowed(a.changes)
    && (forall i :: 0 <= i < |a.changes| ==> a.changes[i].t <= lastMove)
  }

  /** An axis not yet reported holds fewer reversals than the threshold. */
  predicate AxisValid(a: AxisState, lastMove: int)
  {
    AxisShape(a, lastMove) && (!a.detected ==> |a.changes| < DirectionChangeThreshold)
  }

  /** The cooldown flag is never raised, so it stays false. */
  predicate Valid(s: Detector)
  {
    AxisValid(s.h, s.lastMoveTime) && AxisValid(s.v, s.lastMoveTime) && !s.inCooldown
  }

  lemma InitValid(x: int, y: int, now: int)
    ensures Valid(Init(x, y, now))
  {
  }

  // ---------------------------------------------------------------------
  // Pruning

  lemma {:induction false} PruneKeepsAll(cs: seq<Change>, now: int)
    requires forall i :: 0 <= i < |cs| ==> now - cs[i].t <= DetectionWindowMs
    ensures Prune(cs, now) == cs
  {
    if cs != [] {
      PruneKeepsAll(cs[1..], now);
    }
  }

  /** On a history in time order, pruning drops a prefix: the reversals that left the window. */
  lemma {:induction false} PruneSuffix(cs: seq<Change>, now: int) returns (k: nat)
    requires Sorted(cs)
    ensures k <= |cs| && Prune(cs, now) == cs[k..]
    ensures forall i :: 0 <= i < k ==> now - cs[i].t > DetectionWindowMs
  {
    if cs == [] {
      k := 0;
    } else if now - cs[0].t <= DetectionWindowMs {
      PruneKeepsAll(cs, now);
      k := 0;
    } else {
      var k1 := PruneSuffix(cs[1..], now);
      k := k1 + 1;
      assert cs[1..][k1..] == cs[k..];
    }
  }

  // ---------------------------------------------------------------------
  // One tick keeps the invariant

  lemma AppendShape(cs: seq<Change>, c: Change)
    requires Sorted(cs) && Alternating(cs)
    requires forall i :: 0 <= i < |cs| ==> cs[i].t <= c.t
    requires cs != [] ==> cs[|cs| - 1].dir != c.dir
    ensures Sorted(cs + [c]) && Alternating(cs + [c])
  {
    var l := cs + [c];
    forall i | 0 <= i < |l| - 1 ensures l[i].dir != l[i + 1].dir {
      if i + 1 == |l| - 1 {
        assert l[i] == cs[|cs| - 1];
      } else {
        assert l[i] == cs[i] && l[i + 1] == cs[i + 1];
      }
    }
  }

  lemma SuffixShape(l: seq<Change>, k: nat)
    requires k <= |l| && Sorted(l) && Alternating(l)
    ensures Sorted(l[k..]) && Alternating(l[k..])
  {
    var r := l[k..];
    forall i | 0 <= i < |r| - 1 ensures r[i].dir != r[i + 1].dir {
      assert r[i] == l[k + i] && r[i + 1] == l[k + i + 1];
    }
  }

  /** Recording a reversal at the newest time keeps the history sorted, alternating and windowed. */
  lemma RecordShape(a: AxisState, now: int, dir: int, lastMove: int)
    requires AxisShape(a, lastMove) && lastMove <= now
    requires a.lastDir != 0 && dir != a.lastDir
    ensures var r := Prune(a.changes + [Change(now, dir)], now);
      && r != [] && r[|r| - 1] == Change(now, dir)
      && Sorted(r) && Alternating(r) && Windowed(r)
      && forall i :: 0 <= i < |r| ==> r[i].t <= now
  {
    var c := Change(now, dir);
    var l := a.changes + [c];
    AppendShape(a.changes, c);
    var k := PruneSuffix(l, now);
    assert l[|l| - 1] == c;
    assert k < |l|;
    var r := l[k..];
    PruneKeepsRecent(l, now);
    SuffixShape(l, k);
    assert r[|r| - 1] == c;
    forall i | 0 <= i < |r| ensures r[i].t <= now && now - r[i].t <= DetectionWindowMs {
      assert r[i] in r;
    }
  }

  lemma TrackShape(a: AxisState, d: int, now: int, lastMove: int, lastMove2: int)
    requires AxisShape(a, lastMove) && lastMove <= lastMove2
    requires Moves(d) ==> now == lastMove2
    ensures AxisShape(Track(a, d, now), lastMove2)
  {
    if Reverses(a, d) {
      RecordShape(a, now, Direction(d), lastMove);
    }
  }

  /** Raises the report flag of an axis whose reversals reach the threshold, outside cooldown. */
  function Flag(a: AxisState): (r: AxisState)
    ensures r.changes == a.changes && r.lastDir == a.lastDir
  {
    if Fires(false, a) then a.(detected := true) else a
  }

  /** The state a tick leaves, given the two tracked axes and the time of the last move. */
  function Settled(x: int, y: int, h1: AxisState, v1: AxisState, lastMove: int, now: int): Detector
  {
    var h2, v2 := Flag(h1), Flag(v1);
    if now - lastMove > CooldownAfterStopMs && (h2.detected || v2.detected)
    then Detector(x, y, Idle, Idle, lastMove, false)
    else Detector(x, y, h2, v2, lastMove, false)
  }

  /** Outside cooldown a tick tracks both axes, then flags and possibly clears them. */
  lemma TickSettles(s: Detector, x: int, y: int, now: int)
    requires !s.inCooldown
    ensures var dx, dy := x - s.prevX, y - s.prevY;
      var lastMove := if Moves(dx) || Moves(dy) then now else s.lastMoveTime;
      Tick(s, x, y, now).next == Settled(x, y, Track(s.h, dx, now), Track(s.v, dy, now), lastMove, now)
  {
  }

  /** Flagging and clearing two well-shaped axes gives a valid state. */
  lemma SettledValid(x: int, y: int, h1: AxisState, v1: AxisState, lastMove: int, now: int)
    requires AxisShape(h1, lastMove) && AxisShape(v1, lastMove)
    ensures Valid(Settled(x, y, h1, v1, lastMove, now))
  {
    assert AxisValid(Flag(h1), lastMove);
    assert AxisValid(Flag(v1), lastMove);
  }

  /** A tick whose clock does not go back keeps the invariant. */
  lemma TickValid(s: Detector, x: int, y: int, now: int)
    requires Valid(s) && s.lastMoveTime <= now
    ensures Valid(Tick(s, x, y, now).next)
    ensures s.lastMoveTime <= Tick(s, x, y, now).next.lastMoveTime <= now
  {
    TickSettles(s, x, y, now);
    var dx, dy := x - s.prevX, y - s.prevY;
    var lastMove := if Moves(dx) || Moves(dy) then now else s.lastMoveTime;
    var h1, v1 := Track(s.h, dx, now), Track(s.v, dy, now);
    var settled := Settled(x, y, h1, v1, lastMove, now);
    assert Valid(settled) by {
      TrackShape(s.h, dx, now, s.lastMoveTime, lastMove);
      TrackShape(s.v, dy, now, s.lastMoveTime, lastMove);
      SettledValid(x, y, h1, v1, lastMove, now);
    }
    ValidSame(Tick(s, x, y, now).next, settled);
  }

  lemma ValidSame(a: Detector, b: Detector)
    requires a == b && Valid(b)
    ensures Valid(a)
  {
  }

  // ---------------------------------------------------------------------
  // When an axis is reported

  /**
   * In a valid state the horizontal axis is reported exactly when this tick
   * reverses it by more than 30 px, it was not reported before, and the
   * reversals of the last 1.5 s, this one included, reach 3; after a report
   * its flag is set.
   */
  lemma HorizontalFires(s: Detector, x: int, y: int, now: int)
    requires Valid(s)
    ensures var r, dx := Tick(s, x, y, now), x - s.prevX;
      Horizontal in r.fired <==>
        && !s.h.detected && Reverses(s.h, dx)
        && |Prune(s.h.changes + [Change(now, Direction(dx))], now)| >= DirectionChangeThreshold
    ensures Horizontal in Tick(s, x, y, now).fired ==> Tick(s, x, y, now).next.h.detected
  {
  }

  /** The vertical axis is reported under the same rule, on the y delta. */
  lemma VerticalFires(s: Detector, x: int, y: int, now: int)
    requires Valid(s)
    ensures var r, dy := Tick(s, x, y, now), y - s.prevY;
      Vertical in r.fired <==>
        && !s.v.detected && Reverses(s.v, dy)
        && |Prune(s.v.changes + [Change(now, Direction(dy))], now)| >= DirectionChangeThreshold
    ensures Vertical in Tick(s, x, y, now).fired ==> Tick(s, x, y, now).next.v.detected
  {
  }

  // ---------------------------------------------------------------------
  // When reports are cleared

  /**
   * A reported axis loses its flag exactly when neither axis moved more than
   * 30 px in this tick and the last such move is more than 0.5 s old; both
   * axes are then cleared completely, and nothing is reported in that tick.
   */
  lemma ReportCleared(s: Detector, x: int, y: int, now: int)
    requires Valid(s) && (s.h.detected || s.v.detected)
    ensures var r := Tick(s, x, y, now);
      var quiet := !Moves(x - s.prevX) && !Moves(y - s.prevY) && now - s.lastMoveTime > CooldownAfterStopMs;
      && (s.h.detected ==> (!r.next.h.detected <==> quiet))
      && (s.v.detected ==> (!r.next.v.detected <==> quiet))
      && (quiet ==> r.next.h == Idle && r.next.v == Idle && r.fired == []
                    && r.next.lastMoveTime == s.lastMoveTime)
  {
  }

  /** Without an earlier report nothing is cleared: the histories only change by recording reversals. */
  lemma NothingToClear(s: Detector, x: int, y: int, now: int)
    requires Valid(s) && !s.h.detected && !s.v.detected
    ensures var r := Tick(s, x, y, now);
      r.fired == [] ==> r.next.h == Track(s.h, x - s.prevX, now) && r.next.v == Track(s.v, y - s.prevY, now)
  {
  }

  // ---------------------------------------------------------------------
  // Runs

  lemma FinalPosition(s: Detector, samples: seq<Sample>)
    requires samples != []
    ensures Final(s, samples).prevX == samples[|samples| - 1].x
    ensures Final(s, samples).prevY == samples[|samples| - 1].y
  {
  }

  /** Along a run whose clock never goes back the invariant holds after every tick. */
  lemma {:induction false} RunValid(s: Detector, samples: seq<Sample>)
    requires Valid(s) && MonotoneFrom(s.lastMoveTime, samples)
    ensures Valid(Final(s, samples))
    ensures samples != [] ==> Final(s, samples).lastMoveTime <= samples[|samples| - 1].t
    ensures samples == [] ==> Final(s, samples).lastMoveTime == s.lastMoveTime
    decreases |samples|
  {
    if samples != [] {
      var init, last := samples[..|samples| - 1], samples[|samples| - 1];
      assert MonotoneFrom(s.lastMoveTime, init);
      RunValid(s, init);
      if init != [] {
        assert init[|init| - 1].t <= last.t;
      }
      TickValid(Final(s, init), last.x, last.y, last.t);
    }
  }

  /** The position a sample is compared with: the previous sample, or the start. */
  function Before(x0: int, y0: int, samples: seq<Sample>, i: nat): (p: (int, int))
    requires i < |samples|
  {
    if i == 0 then (x0, y0) else (samples[i - 1].x, samples[i - 1].y)
  }

  /** Whether no step between samples moves the pointer against sign sg on the x axis. */
  predicate MonotoneX(sg: int, x0: int, y0: int, samples: seq<Sample>)
  {
    forall i {:trigger Before(x0, y0, samples, i)} :: 0 <= i < |samples| ==> sg * (samples[i].x - Before(x0, y0, samples, i).0) >= 0
  }

  /** Whether no step between samples moves the pointer against sign sg on the y axis. */
  predicate MonotoneY(sg: int, x0: int, y0: int, samples: seq<Sample>)
  {
    forall i {:trigger Before(x0, y0, samples, i)} :: 0 <= i < |samples| ==> sg * (samples[i].y - Before(x0, y0, samples, i).1) >= 0
  }

  /** Whether every sample moves the pointer more than 30 px on some axis. */
  predicate KeepsMoving(x0: int, y0: int, samples: seq<Sample>)
  {
    forall i {:trigger Before(x0, y0, samples, i)} :: 0 <= i < |samples| ==>
      Moves(samples[i].x - Before(x0, y0, samples, i).0) || Moves(samples[i].y - Before(x0, y0, samples, i).1)
  }

  lemma MonotoneXPrefix(sg: int, x0: int, y0: int, samples: seq<Sample>, n: nat)
    requires n <= |samples| && MonotoneX(sg, x0, y0, samples)
    ensures MonotoneX(sg, x0, y0, samples[..n])
  {
    forall i | 0 <= i < n ensures sg * (samples[..n][i].x - Before(x0, y0, samples[..n], i).0) >= 0 {
      assert Before(x0, y0, samples[..n], i) == Before(x0, y0, samples, i);
    }
  }

  lemma MonotoneYPrefix(sg: int, x0: int, y0: int, samples: seq<Sample>, n: nat)
    requires n <= |samples| && MonotoneY(sg, x0, y0, samples)
    ensures MonotoneY(sg, x0, y0, samples[..n])
  {
    forall i | 0 <= i < n ensures sg * (samples[..n][i].y - Before(x0, y0, samples[..n], i).1) >= 0 {
      assert Before(x0, y0, samples[..n], i) == Before(x0, y0, samples, i);
    }
  }

  /** An axis with no recorded reversal whose direction, if any, is sg. */
  predicate Heading(a: AxisState, sg: int)
  {
    a.changes == [] && (a.lastDir == 0 || a.lastDir == sg)
  }

  /** A move that is not against the axis's direction records no reversal and leaves it heading the same way. */
  lemma OneWayTrack(a: AxisState, d: int, now: int, sg: int)
    requires (sg == 1 || sg == -1) && Heading(a, sg) && sg * d >= 0
    ensures Heading(Track(a, d, now), sg) && !Fires(false, Track(a, d, now))
  {
    assert !Reverses(a, d);
  }

  /** A tick that does not move against sg on the x axis reports no horizontal shake. */
  lemma OneWayTickX(p: Detector, smp: Sample, sg: int)
    requires (sg == 1 || sg == -1) && Heading(p.h, sg) && sg * (smp.x - p.prevX) >= 0
    ensures Horizontal !in Tick(p, smp.x, smp.y, smp.t).fired
    ensures Heading(Tick(p, smp.x, smp.y, smp.t).next.h, sg)
  {
    OneWayTrack(p.h, smp.x - p.prevX, smp.t, sg);
  }

  /** A tick that does not move against sg on the y axis reports no vertical shake. */
  lemma OneWayTickY(p: Detector, smp: Sample, sg: int)
    requires (sg == 1 || sg == -1) && Heading(p.v, sg) && sg * (smp.y - p.prevY) >= 0
    ensures Vertical !in Tick(p, smp.x, smp.y, smp.t).fired
    ensures Heading(Tick(p, smp.x, smp.y, smp.t).next.v, sg)
  {
    OneWayTrack(p.v, smp.y - p.prevY, smp.t, sg);
  }

  /**
   * A pointer that only ever moves one way horizontally (never left, or never
   * right) is never reported as shaking horizontally: there is no reversal.
   */
  lemma {:induction false} OneWayNoHorizontal(s: Detector, samples: seq<Sample>, sg: int)
    requires sg == 1 || sg == -1
    requires Heading(s.h, sg) && MonotoneX(sg, s.prevX, s.prevY, samples)
    ensures Horizontal !in Events(s, samples)
    ensures Heading(Final(s, samples).h, sg)
    decreases |samples|
  {
    if samples != [] {
      var n := |samples| - 1;
      var init := samples[..n];
      MonotoneXPrefix(sg, s.prevX, s.prevY, samples, n);
      OneWayNoHorizontal(s, init, sg);
      var p := Final(s, init);
      if n > 0 {
        FinalPosition(s, init);
        assert p.prevX == samples[n - 1].x;
      }
      assert Before(s.prevX, s.prevY, samples, n).0 == p.prevX;
      OneWayTickX(p, samples[n], sg);
    }
  }

  /** The same on the y axis: a pointer that only ever moves one way vertically is never reported vertically. */
  lemma {:induction false} OneWayNoVertical(s: Detector, samples: seq<Sample>, sg: int)
    requires sg == 1 || sg == -1
    requires Heading(s.v, sg) && MonotoneY(sg, s.prevX, s.prevY, samples)
    ensures Vertical !in Events(s, samples)
    ensures Heading(Final(s, samples).v, sg)
    decreases |samples|
  {
    if samples != [] {
      var n := |samples| - 1;
      var init := samples[..n];
      MonotoneYPrefix(sg, s.prevX, s.prevY, samples, n);
      OneWayNoVertical(s, init, sg);
      var p := Final(s, init);
      if n > 0 {
        FinalPosition(s, init);
        assert p.prevY == samples[n - 1].y;
      }
      assert Before(s.prevX, s.prevY, samples, n).1 == p.prevY;
      OneWayTickY(p, samples[n], sg);
    }
  }

  /** Movement that is monotone on both axes, from the start state, is never reported at all. */
  lemma MonotoneRunIsSilent(start: Sample, samples: seq<Sample>, sx: int, sy: int)
    requires (sx == 1 || sx == -1) && (sy == 1 || sy == -1)
    requires MonotoneX(sx, start.x, start.y, samples) && MonotoneY(sy, start.x, start.y, samples)
    ensures Events(Init(start.x, start.y, start.t), samples) == []
  {
    var s := Init(start.x, start.y, start.t);
    assert Heading(s.h, sx) && Heading(s.v, sy);
    OneWayNoHorizontal(s, samples, sx);
    OneWayNoVertical(s, samples, sy);
    NoAxisNoEvents(Events(s, samples));
  }

  /** A report list without either axis is empty. */
  lemma NoAxisNoEvents(e: seq<Axis>)
    ensures Horizontal !in e && Vertical !in e ==> e == []
  {
    if e != [] {
      assert e[0] in e && (e[0] == Horizontal || e[0] == Vertical);
    }
  }

  /**
   * Whether a tick at `smp` from state p is quiet: no axis moves more than
   * 30 px and the last such move is more than 0.5 s old.  Only a quiet tick
   * can clear the report flags.
   */
  predicate Quiet(p: Detector, smp: Sample)
  {
    !Moves(smp.x - p.prevX) && !Moves(smp.y - p.prevY) && smp.t - p.lastMoveTime > CooldownAfterStopMs
  }

  /** A tick that is not quiet keeps every report flag raised and reports no flagged axis. */
  lemma NoResetTick(p: Detector, smp: Sample)
    requires !Quiet(p, smp)
    ensures p.h.detected ==> Horizontal !in Tick(p, smp.x, smp.y, smp.t).fired && Tick(p, smp.x, smp.y, smp.t).next.h.detected
    ensures p.v.detected ==> Vertical !in Tick(p, smp.x, smp.y, smp.t).fired && Tick(p, smp.x, smp.y, smp.t).next.v.detected
  {
    if Moves(smp.x - p.prevX) || Moves(smp.y - p.prevY) {
      assert Tick(p, smp.x, smp.y, smp.t).next.lastMoveTime == smp.t;
    } else {
      assert Tick(p, smp.x, smp.y, smp.t).next.lastMoveTime == p.lastMoveTime;
    }
  }

  /** The last tick of a run that is not quiet keeps the report flags and adds no report for a flagged axis. */
  lemma NoResetLastTick(s: Detector, samples: seq<Sample>)
    requires samples != []
    requires !Quiet(Final(s, samples[..|samples| - 1]), samples[|samples| - 1])
    ensures var init := samples[..|samples| - 1];
      && (Final(s, init).h.detected ==>
            Final(s, samples).h.detected && (Horizontal in Events(s, samples) ==> Horizontal in Events(s, init)))
      && (Final(s, init).v.detected ==>
            Final(s, samples).v.detected && (Vertical in Events(s, samples) ==> Vertical in Events(s, init)))
  {
    NoResetTick(Final(s, samples[..|samples| - 1]), samples[|samples| - 1]);
  }

  /** Whether no tick of the run clears the report flags. */
  predicate NoReset(s: Detector, samples: seq<Sample>)
  {
    forall i :: 0 <= i < |samples| ==> !Quiet(Final(s, samples[..i]), samples[i])
  }

  /**
   * One report per axis per shake episode: once an axis is reported it is
   * not reported again, and stays flagged, until a tick clears the flags.
   */
  lemma {:induction false} OneReportPerEpisode(s: Detector, samples: seq<Sample>)
    requires NoReset(s, samples)
    ensures s.h.detected ==> Horizontal !in Events(s, samples) && Final(s, samples).h.detected
    ensures s.v.detected ==> Vertical !in Events(s, samples) && Final(s, samples).v.detected
    decreases |samples|
  {
    if samples != [] {
      var n := |samples| - 1;
      var init := samples[..n];
      assert (s.h.detected ==> Horizontal !in Events(s, init) && Final(s, init).h.detected)
          && (s.v.detected ==> Vertical !in Events(s, init) && Final(s, init).v.detected) by {
        forall i | 0 <= i < n ensures !Quiet(Final(s, init[..i]), init[i]) {
          assert init[..i] == samples[..i];
          assert !Quiet(Final(s, samples[..i]), samples[i]);
        }
        OneReportPerEpisode(s, init);
      }
      assert !Quiet(Final(s, samples[..n]), samples[n]);
      NoResetLastTick(s, samples);
    }
  }

  /** A run in which every tick moves the pointer more than 30 px has no quiet tick. */
  lemma MovingRunNoReset(s: Detector, samples: seq<Sample>)
    requires KeepsMoving(s.prevX, s.prevY, samples)
    ensures NoReset(s, samples)
  {
    forall i | 0 <= i < |samples| ensures !Quiet(Final(s, samples[..i]), samples[i]) {
      var p := Final(s, samples[..i]);
      if i > 0 {
        FinalPosition(s, samples[..i]);
        assert samples[..i][i - 1] == samples[i - 1];
      }
      assert Before(s.prevX, s.prevY, samples, i) == (p.prevX, p.prevY);
    }
  }

  /**
   * Once an axis is reported it is not reported again while the pointer keeps
   * moving: a special case of one report per episode.
   */
  lemma OneReportPerShake(s: Detector, samples: seq<Sample>)
    requires KeepsMoving(s.prevX, s.prevY, samples)
    ensures s.h.detected ==> Horizontal !in Events(s, samples) && Final(s, samples).h.detected
    ensures s.v.detected ==> Vertical !in Events(s, samples) && Final(s, samples).v.detected
  {
    MovingRunNoReset(s, samples);
    OneReportPerEpisode(s, samples);
  }

  // ---------------------------------------------------------------------
  // Two runs

  /** The first k samples of a run are the first k - 1 and one more tick. */
  lemma RunPrefix(s0: Detector, samples: seq<Sample>, k: nat)
    requires 0 < k <= |samples|
    ensures var last := samples[k - 1];
      var r := Tick(Final(s0, samples[..k - 1]), last.x, last.y, last.t);
      Final(s0, samples[..k]) == r.next && Events(s0, samples[..k]) == Events(s0, samples[..k - 1]) + r.fired
  {
    assert samples[..k][..k - 1] == samples[..k - 1];
  }

  /** The state after the strokes at 100, t2 and t3 ms: one move right, then two reversals. */
  function TwoReversals(t2: int, t3: int): Detector
  {
    Detector(40, 0, AxisState([Change(t2, -1), Change(t3, 1)], 1, false), Idle, t3, false)
  }

  /** Right 40 px at 100 ms, then back at t2: the first reversal is recorded. */
  lemma TwoStrokes(samples: seq<Sample>, t2: int)
    requires 100 < t2
    requires |samples| >= 2 && samples[0] == Sample(40, 0, 100) && samples[1] == Sample(0, 0, t2)
    ensures Final(Init(0, 0, 0), samples[..2]) == Detector(0, 0, AxisState([Change(t2, -1)], -1, false), Idle, t2, false)
    ensures Events(Init(0, 0, 0), samples[..2]) == []
  {
    var s0 := Init(0, 0, 0);
    var s1 := Detector(40, 0, AxisState([], 1, false), Idle, 100, false);
    assert Final(s0, samples[..1]) == s1 && Events(s0, samples[..1]) == [] by {
      assert samples[..0] == [];
      RunPrefix(s0, samples, 1);
      assert Track(Idle, 0, 100) == Idle;
    }
    RunPrefix(s0, samples, 2);
    assert [] + [Change(t2, -1)] == [Change(t2, -1)];
    assert Prune([Change(t2, -1)], t2) == [Change(t2, -1)];
    assert Track(Idle, 0, t2) == Idle;
  }

  /** A third stroke, right again at t3: two reversals, nothing reported yet. */
  lemma ThreeStrokes(samples: seq<Sample>, t2: int, t3: int)
    requires 100 < t2 < t3 <= t2 + DetectionWindowMs
    requires |samples| >= 3
    requires samples[0] == Sample(40, 0, 100) && samples[1] == Sample(0, 0, t2) && samples[2] == Sample(40, 0, t3)
    ensures Final(Init(0, 0, 0), samples[..3]) == TwoReversals(t2, t3)
    ensures Events(Init(0, 0, 0), samples[..3]) == []
  {
    TwoStrokes(samples, t2);
    RunPrefix(Init(0, 0, 0), samples, 3);
    var c3 := [Change(t2, -1)] + [Change(t3, 1)];
    assert c3[1..] == [Change(t3, 1)];
    assert Prune(c3, t3) == c3;
    assert Track(Idle, 0, t3) == Idle;
  }

  /**
   * A fourth stroke, left at t4, makes the third reversal; it is reported
   * exactly when the first reversal is still inside the 1.5 s window.
   */
  lemma FourthStroke(t2: int, t3: int, t4: int)
    requires t2 < t3 < t4 <= t3 + DetectionWindowMs
    ensures Tick(TwoReversals(t2, t3), 0, 0, t4).fired == if t4 - t2 <= DetectionWindowMs then [Horizontal] else []
  {
    var c4 := [Change(t2, -1), Change(t3, 1)] + [Change(t4, -1)];
    assert c4[1..] == [Change(t3, 1), Change(t4, -1)];
    assert c4[1..][1..] == [Change(t4, -1)];
    if t4 - t2 <= DetectionWindowMs {
      PruneKeepsAll(c4, t4);
    } else {
      PruneKeepsAll(c4[1..], t4);
      assert Prune(c4, t4) == c4[1..];
    }
    assert Track(Idle, 0, t4) == Idle;
  }

  /** Four 40 px strokes left and right within 0.3 s: the third reversal is reported. */
  lemma QuickShakeIsReported(samples: seq<Sample>)
    requires samples == [Sample(40, 0, 100), Sample(0, 0, 200), Sample(40, 0, 300), Sample(0, 0, 400)]
    ensures Events(Init(0, 0, 0), samples) == [Horizontal]
  {
    assert samples[..4] == samples;
    assert Events(Init(0, 0, 0), samples[..4]) == [Horizontal] by {
      ThreeStrokes(samples, 200, 300);
      FourthStroke(200, 300, 400);
      RunPrefix(Init(0, 0, 0), samples, 4);
    }
  }

  /** The same strokes 0.8 s apart: the oldest reversal leaves the window before the third arrives. */
  lemma SlowStrokesAreNotReported(samples: seq<Sample>)
    requires samples == [Sample(40, 0, 100), Sample(0, 0, 900), Sample(40, 0, 1700), Sample(0, 0, 2500)]
    ensures Events(Init(0, 0, 0), samples) == []
  {
    assert samples[..4] == samples;
    assert Events(Init(0, 0, 0), samples[..4]) == [] by {
      ThreeStrokes(samples, 900, 1700);
      FourthStroke(900, 1700, 2500);
      RunPrefix(Init(0, 0, 0), samples, 4);
    }
  }
}
