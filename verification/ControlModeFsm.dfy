/** The control-mode state machine: three priority layers in the code, one decision table here. */
module ControlModeFsm {
  import opened Options

  datatype Mode = Unknown | Disabled | Enabling | Normal | Damping | ZeroSetting | Estop

  datatype Code = NoCommand | Enable | Disable | Damp | ZeroSet | EmergencyStop | ResetFault | Run

  /** The command codes by number; a number that names no code counts as no command. */
  function ParseCode(number: nat): Code {
    match number
    case 1 => Enable
    case 2 => Disable
    case 3 => Damp
    case 4 => ZeroSet
    case 5 => EmergencyStop
    case 6 => ResetFault
    case 7 => Run
    case _ => NoCommand
  }

  /** The decision table. `held` says that the mode has lasted for the enabling duration. */
  function NextMode(mode: Mode, code: Code, held: bool): Mode {
    if mode == Estop then (if code == ResetFault then Disabled else Estop)
    else match code
      case EmergencyStop => Estop
      case Disable => Disabled
      case ResetFault => Disabled
      case Damp => Damping
      case ZeroSet => ZeroSetting
      case Enable => if mode == Disabled || mode == ZeroSetting then Enabling else OnTimer(mode, held)
      case Run => if mode == Damping then Normal else OnTimer(mode, held)
      case NoCommand => if mode == ZeroSetting then Disabled else OnTimer(mode, held)
  }

  function OnTimer(mode: Mode, held: bool): Mode {
    if mode == Enabling && held then Damping else mode
  }

  /** A mode and the time at which it was entered. */
  datatype State = State(mode: Mode, enterTime: real)

  /** The clock of a mode starts when the mode changes, and only then. */
  function Next(s: State, code: Code, now: real, enableDuration: real): State {
    var mode := NextMode(s.mode, code, now - s.enterTime >= enableDuration);
    if mode == s.mode then s else State(mode, now)
  }

  class Fsm {
    const enableDuration: real
    var mode: Mode
    var modeEnterTime: real

    /** `now` is the clock reading that stands in for a missing enter time. */
    constructor (enableDuration: real, now: real)
      requires enableDuration >= 0.0
      ensures this.enableDuration == enableDuration && Current() == State(Disabled, now)
    {
      this.enableDuration := enableDuration;
      mode := Disabled;
      modeEnterTime := now;
    }

    function Current(): State
      reads this
    {
      State(mode, modeEnterTime)
    }

    /** The three layers together follow the decision table. */
    method Update(code: Code, now: real) returns (r: Mode)
      modifies this
      ensures Current() == Next(old(Current()), code, now, enableDuration)
      ensures r == mode
    {
      var m := ApplySafety(code, now);
      if m.Some? {
        return m.value;
      }
      m := ApplyOperatorCommand(code, now);
      if m.Some? {
        return m.value;
      }
      m := ApplyAutomaticTransition(code, now);
      if m.Some? {
        return m.value;
      }
      r := mode;
    }

    method ApplySafety(code: Code, now: real) returns (r: Option<Mode>)
      modifies this
      ensures r.Some? <==> code == EmergencyStop || old(mode) == Estop
      ensures r.Some? ==> r.value == mode && Current() == Next(old(Current()), code, now, enableDuration)
      ensures r.None? ==> Current() == old(Current())
    {
      if code == EmergencyStop {
        var m := Enter(Estop, now);
        return Some(m);
      }
      if mode == Estop {
        if code == ResetFault {
          var m := Enter(Disabled, now);
          return Some(m);
        }
        return Some(mode);
      }
      r := None;
    }

    method ApplyOperatorCommand(code: Code, now: real) returns (r: Option<Mode>)
      requires mode != Estop && code != EmergencyStop
      modifies this
      ensures r.Some? ==> r.value == mode && Current() == Next(old(Current()), code, now, enableDuration)
      ensures r.None? ==> Current() == old(Current())
      ensures r.None? <==> match code
                           case NoCommand => true
                           case Enable => old(mode) != Disabled && old(mode) != ZeroSetting
                           case Run => old(mode) != Damping
                           case _ => false
    {
      r := None;
      match code {
        case Disable | ResetFault =>
          var m := Enter(Disabled, now);
          r := Some(m);
        case Enable =>
          if mode == Disabled || mode == ZeroSetting {
            var m := Enter(Enabling, now);
            r := Some(m);
          }
        case Run =>
          if mode == Damping {
            var m := Enter(Normal, now);
            r := Some(m);
          }
        case Damp =>
          var m := Enter(Damping, now);
          r := Some(m);
        case ZeroSet =>
          var m := Enter(ZeroSetting, now);
          r := Some(m);
        case _ =>
      }
    }

    method ApplyAutomaticTransition(code: Code, now: real) returns (r: Option<Mode>)
      requires mode != Estop
      requires code == NoCommand || (code == Enable && mode != Disabled && mode != ZeroSetting)
               || (code == Run && mode != Damping)
      modifies this
      ensures Current() == Next(old(Current()), code, now, enableDuration)
      ensures r.Some? ==> r.value == mode
    {
      r := None;
      match mode {
        case ZeroSetting =>
          if code == NoCommand {
            var m := Enter(Disabled, now);
            r := Some(m);
          }
        case Enabling =>
          if now - modeEnterTime >= enableDuration {
            var m := Enter(Damping, now);
            r := Some(m);
          }
        case _ =>
      }
    }

    method Enter(next: Mode, now: real) returns (r: Mode)
      modifies this
      ensures Current() == if next == old(mode) then old(Current()) else State(next, now)
      ensures r == mode
    {
      if mode != next {
        mode := next;
        modeEnterTime := now;
      }
      r := mode;
    }
  }
}
