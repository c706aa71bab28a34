/** The safety node. */
module SafetyNode {
  import opened Messages
  import opened SafetySpec

  class SafetyCore {
    var mode: Mode
    var lastFdir: uint8
    var lastMux: uint8
    var eStop: bool
    var processing: bool
    var closed: bool
    var maxNormal: real
    var maxDegraded: real
    var stage: Stage
    var publishers: Option<bool>

    // what has been published
    ghost var motor: seq<Twist>
    ghost var contactor: seq<bool>
    ghost var states: seq<uint8>

    ghost function View(): Safety
      reads this
    {
      Safety(mode, lastFdir, lastMux, eStop, processing, closed, maxNormal, maxDegraded, stage, publishers)
    }

    /** The method did what the specification's step does, and published the same. */
    twostate predicate Does(ev: Event)
      reads this
    {
      var (after, out) := Step(old(View()), ev);
      && View() == after
      && motor == old(motor) + out.motor
      && contactor == old(contactor) + out.contactor
      && states == old(states) + out.states
    }

    constructor ()
      ensures View() == Created() && motor == [] && contactor == [] && states == []
    {
      mode, lastFdir, lastMux, eStop, processing, closed := Normal, 255, MUX_IDLE, false, false, false;
      maxNormal, maxDegraded, stage, publishers := 0.0, 0.0, Unconfigured, None;
      motor, contactor, states := [], [], [];
    }

    method OnConfigure(normal: real, degraded: real)
      requires stage == Unconfigured
      modifies this
      ensures Does(Configure(normal, degraded))
    {
      maxNormal := normal;
      maxDegraded := degraded;
      publishers := Some(false);
      stage := Inactive;
    }

    method OnActivate()
      requires stage == Inactive
      modifies this
      ensures Does(Activate)
    {
      processing := true;
      publishers := Some(true);
      SetHardwareContactors(false);
      stage := Active;
    }

    method OnDeactivate()
      requires stage == Active
      modifies this
      ensures Does(Deactivate)
    {
      processing := false;
      SetHardwareContactors(false);
      publishers := Some(false);
      stage := Inactive;
    }

    method OnCleanup()
      requires stage == Inactive
      modifies this
      ensures Does(Cleanup)
    {
      processing := false;
      SetHardwareContactors(false);
      publishers := None;
      stage := Unconfigured;
    }

    method OnShutdown()
      requires stage != Finalized
      modifies this
      ensures Does(Shutdown)
    {
      processing := false;
      SetHardwareContactors(false);
      stage := Finalized;
    }

    /** Handled successfully, an error leads back to the unconfigured stage. */
    method OnError()
      requires stage != Finalized
      modifies this
      ensures Does(Error)
    {
      processing := false;
      SetHardwareContactors(false);
      stage := Unconfigured;
    }

    method SetHardwareContactors(enable: bool)
      modifies `closed, `contactor
      ensures var (after, sent) := SetContactors(old(View()), enable);
              View() == after && contactor == old(contactor) + sent
    {
      if closed == enable {
        return;
      }
      closed := enable;
      if publishers == Some(true) {
        contactor := contactor + [enable];
      }
    }

    method PublishStop()
      requires publishers.Some?
      modifies `motor
      ensures motor == old(motor) + StopMessage(View())
    {
      if publishers.value {
        motor := motor + [ZERO_TWIST];
      }
    }

    method PublishGlobalState()
      requires publishers.Some?
      modifies `states
      ensures states == old(states) + GlobalState(View())
    {
      if !publishers.value {
        return;
      }
      if eStop || mode == Emergency {
        states := states + [SAFETY_EMERGENCY];
      } else if mode == ProtectiveStop {
        states := states + [SAFETY_PROTECTIVE_STOP];
      } else if mode == Degraded {
        states := states + [SAFETY_DEGRADED];
      } else {
        states := states + [SAFETY_NORMAL];
      }
    }

    method SmoothedVelCallback(msg: Twist)
      requires publishers.Some?
      modifies this
      ensures Does(Smoothed(msg))
    {
      StepIsCallback(View(), Smoothed(msg));
      hide Step;
      if !processing || !publishers.value {
        return;
      }
      if eStop || mode == ProtectiveStop || mode == Emergency {
        PublishStop();
        return;
      }
      var limit := if mode == Degraded then maxDegraded else maxNormal;
      motor := motor + [Twist(Clamp(msg.x, limit), Clamp(msg.y, limit), Clamp(msg.yaw, limit))];
    }

    method HealthStateCallback(state: uint8)
      requires publishers.Some?
      modifies this
      ensures Does(Health(state))
    {
      StepIsCallback(View(), Health(state));
      hide Step, SetContactors, PermitStep;
      if !processing {
        return;
      }
      lastFdir := state;
      if state == STATE_SYSTEM_STARTUP {
        mode := ProtectiveStop;
        PublishStop();
        SetHardwareContactors(false);
      } else if state == STATE_EMERGENCY {
        eStop := true;
        mode := Emergency;
        PublishStop();
        SetHardwareContactors(false);
      } else if PermitsPower(state) {
        Permit(state);
      } else {
        SetHardwareContactors(false);
      }
    }

    /** The cases of the health callback that power the robot unless it is latched. */
    method Permit(state: uint8)
      requires publishers.Some? && PermitsPower(state)
      modifies this
      ensures var (after, out) := PermitStep(old(View()), state);
              View() == after && motor == old(motor) + out.motor && contactor == old(contactor) + out.contactor
      ensures states == old(states)
    {
      hide SetContactors;
      if state == STATE_PROTECTIVE_STOP {
        mode := ProtectiveStop;
        PublishStop();
        if !eStop {
          SetHardwareContactors(true);
        }
      } else if state == STATE_DEGRADED {
        mode := Degraded;
        if !eStop {
          SetHardwareContactors(true);
        }
      } else if state == STATE_SOFTWARE_OK {
        if !eStop {
          mode := Normal;
          SetHardwareContactors(true);
        }
      } else {
        mode := Degraded;
        PublishStop();
        if !eStop {
          SetHardwareContactors(true);
        }
      }
    }

    method MuxStateCallback(state: uint8)
      requires publishers.Some?
      modifies this
      ensures Does(MuxState(state))
    {
      if !processing {
        return;
      }
      lastMux := state;
      PublishGlobalState();
    }

    method OdomCallback(x: real, y: real)
      requires publishers.Some?
      modifies this
      ensures Does(Odom(x, y))
    {
      StepIsCallback(View(), Odom(x, y));
      hide Step;
      if !processing {
        return;
      }
      if mode == ProtectiveStop && FasterThan(x, y, 0.05) {
        eStop := true;
        mode := Emergency;
        SetHardwareContactors(false);
        PublishGlobalState();
      }
    }

    method EstopCallback()
      requires publishers.Some?
      modifies this
      ensures Does(EStop)
    {
      StepIsCallback(View(), EStop);
      hide Step;
      if !processing {
        return;
      }
      eStop := true;
      mode := Emergency;
      PublishStop();
      SetHardwareContactors(false);
      PublishGlobalState();
    }

    /** `success` is the service's answer. */
    method EstopResetCallback() returns (success: bool)
      requires publishers.Some?
      modifies this
      ensures Does(Reset)
      ensures success == (old(mode) == Emergency || old(eStop))
    {
      StepIsCallback(View(), Reset);
      hide Step;
      success := mode == Emergency || eStop;
      if success {
        mode := Normal;
        eStop := false;
        SetHardwareContactors(true);
        PublishGlobalState();
      }
    }
  }
}
