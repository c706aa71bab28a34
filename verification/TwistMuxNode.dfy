/** The twist multiplexer node. */
module TwistMuxNode {
  import opened Messages
  import opened Smoothing
  import opened MuxSpec

  class TwistMux {
    var cfg: Config
    var mode: Mode
    var lastTeleopTime: real
    var lastNavTime: real
    var lastTeleop: Twist
    var lastNav: Twist
    var target: Twist
    var current: Twist
    var degraded: bool
    var fdirBlocked: bool
    var estopBlocked: bool
    var safetyBlocked: bool
    var configured: bool
    var active: bool
    var crashed: bool

    // what has been published, and how often the navigation goal was cancelled
    ghost var velocities: seq<Twist>
    ghost var states: seq<uint8>
    ghost var cancels: nat

    ghost function View(): Mux
      reads this
    {
      Mux(cfg, mode, lastTeleopTime, lastNavTime, lastTeleop, lastNav, target, current,
          degraded, fdirBlocked, estopBlocked, safetyBlocked, configured, active, crashed)
    }

    /** The method did what the specification's step does, and published the same. */
    twostate predicate Does(now: real, ev: Event)
      reads this
    {
      var (after, out) := Step(old(View()), now, ev);
      && View() == after
      && velocities == old(velocities) + out.velocities
      && states == old(states) + out.states
      && cancels == old(cancels) + if out.cancels then 1 else 0
    }

    constructor (now: real)
      ensures View() == Created(now) && velocities == [] && states == [] && cancels == 0
    {
      cfg, mode, lastTeleopTime, lastNavTime := Config(0.5, 2.0, 0.1, 0.0, 0.0), Unconfigured, now, now;
      lastTeleop, lastNav, target, current := ZERO_TWIST, ZERO_TWIST, ZERO_TWIST, ZERO_TWIST;
      degraded, fdirBlocked, estopBlocked, safetyBlocked := false, false, false, false;
      configured, active, crashed := false, false, false;
      velocities, states, cancels := [], [], 0;
    }

    method OnConfigure(now: real, parameters: Config)
      requires !crashed && !configured
      modifies this
      ensures Does(now, Configure(parameters))
    {
      cfg := parameters;
      configured := true;
    }

    method OnActivate(now: real)
      requires !crashed && configured && !active
      modifies this
      ensures Does(now, Activate)
    {
      active := true;
      var past := now - (cfg.manualTimeout + 1.0);
      lastTeleopTime := past;
      lastNavTime := past;
      mode := Idle;
    }

    method OnDeactivate(now: real)
      requires !crashed && configured && active
      modifies this
      ensures Does(now, Deactivate)
    {
      active := false;
    }

    method OnCleanup(now: real)
      requires !crashed && configured && !active
      modifies this
      ensures Does(now, Cleanup)
    {
      configured := false;
    }

    method FdirStateCallback(now: real, state: uint8)
      requires !crashed && configured
      modifies this
      ensures Does(now, HealthArrives(state))
    {
      degraded := state == STATE_DEGRADED;
      fdirBlocked := state == STATE_EMERGENCY || state == STATE_PROTECTIVE_STOP || state == STATE_RECONFIGURED;
      safetyBlocked := fdirBlocked || estopBlocked;
    }

    method SafetyStateCallback(now: real, state: uint8)
      requires !crashed && configured
      modifies this
      ensures Does(now, SafetyArrives(state))
    {
      estopBlocked := state == SAFETY_EMERGENCY;
      safetyBlocked := fdirBlocked || estopBlocked;
    }

    /** `ready` is the answer of the navigation action server, whose client exists while configured. */
    method TeleopCallback(now: real, msg: Twist, ready: bool)
      requires !crashed && configured
      modifies this
      ensures Does(now, Teleop(msg, ready))
    {
      hide IsZero;
      if safetyBlocked {
        return;
      }
      if IsZero(msg) {
        lastTeleop := msg;
      } else {
        lastTeleopTime := now;
        if mode == Autonomous {
          if ready {
            cancels := cancels + 1;
          }
        }
        mode := Manual;
        lastTeleop := msg;
      }
    }

    method NavCallback(now: real, msg: Twist)
      requires !crashed && configured
      modifies this
      ensures Does(now, Nav(msg))
    {
      if safetyBlocked {
        return;
      }
      lastNavTime := now;
      if now - lastTeleopTime < cfg.manualTimeout {
        return;
      }
      mode := Autonomous;
      lastNav := msg;
    }

    /** `thrown` reports the undefined-state exception, which takes the process down. */
    method ControlLoop(now: real) returns (thrown: bool)
      requires !crashed && configured
      modifies this
      ensures Does(now, ControlTick) && thrown == crashed
    {
      StepIsCallback(View(), now, ControlTick);
      hide FilterTwist, Step, Route, SpeedLimit, StateMessage;
      thrown := false;
      if !active {
        return;
      }
      thrown := Arbitrate(now);
      if thrown {
        crashed := true;
      } else {
        PublishState(mode);
        Smooth();
      }
    }

    /** Decides whose command is followed; no mode may be left over when a stream is alive. */
    method Arbitrate(now: real) returns (undefined: bool)
      modifies `mode, `target
      ensures undefined <==> Route(old(View()), now) == None
      ensures undefined ==> View() == old(View())
      ensures !undefined ==> Route(old(View()), now) == Some((mode, target))
      ensures View() == old(View()).(mode := mode, target := target)
    {
      undefined := false;
      if safetyBlocked {
        mode := Blocked;
        target := ZERO_TWIST;
      } else if now - lastTeleopTime > cfg.cmdTimeout && now - lastNavTime > cfg.cmdTimeout {
        mode := Idle;
        target := ZERO_TWIST;
      } else if mode == Manual {
        target := lastTeleop;
      } else if mode == Autonomous {
        target := lastNav;
      } else {
        undefined := true;
      }
    }

    /** The moving average and the clamp, and the publication of the result. */
    method Smooth()
      requires active
      modifies `current, `velocities
      ensures current == FilterTwist(cfg.alpha, target, SpeedLimit(old(View())), old(current))
      ensures View() == old(View()).(current := current)
      ensures velocities == old(velocities) + [current]
    {
      hide Filter;
      var limit := if degraded then cfg.maxDegraded else cfg.maxNormal;
      var x := SmoothAxis(target.x, limit, current.x);
      var y := SmoothAxis(target.y, limit, current.y);
      var yaw := SmoothAxis(target.yaw, limit, current.yaw);
      current := Twist(x, y, yaw);
      velocities := velocities + [current];
    }

    method SmoothAxis(goal: real, limit: real, v: real) returns (v': real)
      ensures v' == Filter(cfg.alpha, goal, limit, v)
    {
      v' := cfg.alpha * goal + (1.0 - cfg.alpha) * v;
      v' := Clamp(v', limit);
    }

    method PublishState(state: Mode)
      requires active
      modifies `states
      ensures states == old(states) + [StateMessage(state)]
    {
      var msg := match state
        case Idle => MUX_IDLE
        case Manual => MUX_MANUAL
        case Autonomous => MUX_AUTONOMOUS
        case Blocked => MUX_BLOCKED_BY_SAFETY
        case Unconfigured => MUX_BLOCKED_BY_SAFETY;
      states := states + [msg];
    }
  }
}
