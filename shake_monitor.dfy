/**
 * The polling loop of the mouse monitor, written the way the monitor runs it:
 * one object holding the loop-carried locals, updated in place by each tick.
 * Each tick is proved to do what ShakeModel.Tick says, and the whole loop to
 * report what ShakeModel.Events says.
 */
module ShakeMonitor {
  import opened ShakeModel
  import ShakeProps

  class Monitor {
    var prevX: int
    var prevY: int
    var hChanges: seq<Change>
    var lastHDir: int
    var hDetected: bool
    var vChanges: seq<Change>
    var lastVDir: int
    var vDetected: bool
    var lastMoveTime: int
    var inCooldown: bool

    /** The locals as a detector state. */
    function State(): Detector
      reads this
    {
      Detector(prevX, prevY,
               AxisState(hChanges, lastHDir, hDetected),
               AxisState(vChanges, lastVDir, vDetected),
               lastMoveTime, inCooldown)
    }

    /** Reads the start position and time; nothing recorded, nothing reported. */
    constructor(x: int, y: int, now: int)
      ensures State() == Init(x, y, now)
    {
      prevX, prevY := x, y;
      hChanges, lastHDir, hDetected := [], 0, false;
      vChanges, lastVDir, vDetected := [], 0, false;
      lastMoveTime := now;
      inCooldown := false;
    }

    /** The horizontal half of a tick: adopt or reverse the direction, record and prune. */
    method TrackHorizontal(dx: int, currentTime: int)
      modifies this
      ensures State() == old(State()).(h := Track(old(State()).h, dx, currentTime),
                                       lastMoveTime := if Moves(dx) then currentTime else old(lastMoveTime))
    {
      if Abs(dx) > MinMoveDistance {
        lastMoveTime := currentTime;
        var currHDir := if dx > 0 then 1 else -1;
        if lastHDir != 0 && currHDir != lastHDir {
          hChanges := hChanges + [Change(currentTime, currHDir)];
          hChanges := Prune(hChanges, currentTime);
          lastHDir := currHDir;
        } else if lastHDir == 0 {
          lastHDir := currHDir;
        }
      }
    }

    /** The vertical half of a tick, the same on the y delta. */
    method TrackVertical(dy: int, currentTime: int)
      modifies this
      ensures State() == old(State()).(v := Track(old(State()).v, dy, currentTime),
                                       lastMoveTime := if Moves(dy) then currentTime else old(lastMoveTime))
    {
      if Abs(dy) > MinMoveDistance {
        lastMoveTime := currentTime;
        var currVDir := if dy > 0 then 1 else -1;
        if lastVDir != 0 && currVDir != lastVDir {
          vChanges := vChanges + [Change(currentTime, currVDir)];
          vChanges := Prune(vChanges, currentTime);
          lastVDir := currVDir;
        } else if lastVDir == 0 {
          lastVDir := currVDir;
        }
      }
    }

    /** Outside cooldown, reports each axis not yet reported whose reversals reach the threshold. */
    method Report() returns (fired: seq<Axis>)
      modifies this
      ensures var fireH, fireV := Fires(old(inCooldown), old(State()).h), Fires(old(inCooldown), old(State()).v);
        && State() == old(State()).(h := old(State()).h.(detected := old(hDetected) || fireH),
                                    v := old(State()).v.(detected := old(vDetected) || fireV))
        && fired == (if fireH then [Horizontal] else []) + (if fireV then [Vertical] else [])
    {
      fired := [];
      if !inCooldown {
        if !hDetected && |hChanges| >= DirectionChangeThreshold {
          hDetected := true;
          fired := fired + [Horizontal];
        }
        if !vDetected && |vChanges| >= DirectionChangeThreshold {
          vDetected := true;
          fired := fired + [Vertical];
        }
      }
    }

    /** After more than 0.5 s without a move, clears both axes if either was reported. */
    method ResetAfterStop(currentTime: int)
      modifies this
      ensures if currentTime - old(lastMoveTime) > CooldownAfterStopMs && (old(hDetected) || old(vDetected))
              then State() == old(State()).(h := Idle, v := Idle, inCooldown := false)
              else State() == old(State())
    {
      if currentTime - lastMoveTime > CooldownAfterStopMs {
        if hDetected || vDetected {
          inCooldown := false;
          hDetected, vDetected := false, false;
          hChanges, vChanges := [], [];
          lastHDir, lastVDir := 0, 0;
        }
      }
    }

    /** One pass of the polling loop; returns the axes it reports. */
    method Step(currX: int, currY: int, currentTime: int) returns (fired: seq<Axis>)
      modifies this
      ensures State() == Tick(old(State()), currX, currY, currentTime).next
      ensures fired == Tick(old(State()), currX, currY, currentTime).fired
    {
      var dx := currX - prevX;
      var dy := currY - prevY;
      TrackHorizontal(dx, currentTime);
      TrackVertical(dy, currentTime);
      fired := Report();
      ResetAfterStop(currentTime);
      prevX, prevY := currX, currY;
    }
  }

  /**
   * The monitor loop over a finite run of pointer samples: starts at the
   * given sample and reports, in order, every axis each tick reports.
   */
  method MonitorShaking(start: Sample, samples: seq<Sample>) returns (events: seq<Axis>)
    ensures events == Events(Init(start.x, start.y, start.t), samples)
  {
    var m := new Monitor(start.x, start.y, start.t);
    ghost var s0 := m.State();
    events := [];
    var i := 0;
    while i < |samples|
      invariant 0 <= i <= |samples|
      invariant m.State() == Final(s0, samples[..i])
      invariant events == Events(s0, samples[..i])
    {
      var smp := samples[i];
      var fired := m.Step(smp.x, smp.y, smp.t);
      events := events + fired;
      ShakeProps.RunPrefix(s0, samples, i + 1);
      i := i + 1;
    }
    assert samples[..i] == samples;
  }
}
