/** What each operator command does, over whole runs and on the raw numbers of the mailbox. */
module CommandEffects {
  import opened Bytes
  import opened Options
  import opened ControlModeFsm
  import opened ControlLoop
  import opened ControllerRuns

  /** The mailbox shows a command number under a timestamp that was not consumed last. */
  predicate Fresh(m: Memory, i: Input) {
    1 <= i.mailbox.command <= 7 && m.lastConsumed != Some(i.mailbox.timestampNs)
  }

  /** At tick `k` the command with this number is fresh. */
  predicate Takes(states: seq<Memory>, inputs: seq<Input>, k: nat, number: nat)
    requires k < |inputs| && k < |states|
  {
    Fresh(states[k], inputs[k]) && inputs[k].mailbox.command == number
  }

  // ----- Where each command leads -----

  /** Main result: the mode that a tick acts in when it takes a command. ENABLE is 1, DISABLE 2, DAMPING 3,
      ZERO_SET 4, ESTOP 5, RESET_FAULT 6 and RUN 7; any other number is no command. */
  lemma CommandLeads(d: real, states: seq<Memory>, inputs: seq<Input>, k: nat)
    requires IsRun(d, states, inputs) && k < |inputs|
    ensures var mode := states[k].fsm.mode;
            && (Takes(states, inputs, k, 5) ==> ModeAt(states, k) == Estop)
            && (mode == Estop ==> ModeAt(states, k) == if Takes(states, inputs, k, 6) then Disabled else Estop)
            && (mode != Estop ==>
                  && (Takes(states, inputs, k, 2) || Takes(states, inputs, k, 6) ==> ModeAt(states, k) == Disabled)
                  && (Takes(states, inputs, k, 3) ==> ModeAt(states, k) == Damping)
                  && (Takes(states, inputs, k, 4) ==> ModeAt(states, k) == ZeroSetting))
    ensures var mode := states[k].fsm.mode;
            && (Takes(states, inputs, k, 7) && mode == Damping ==> ModeAt(states, k) == Normal)
            && (Takes(states, inputs, k, 1) && (mode == Disabled || mode == ZeroSetting) ==>
                  ModeAt(states, k) == Enabling)
  {
  }

  /** A tick that acts in one of `modes` acts in another mode next exactly if it takes one of `numbers`. */
  ghost predicate EndsExactly(states: seq<Memory>, inputs: seq<Input>, k: nat, mode: Mode, numbers: set<nat>)
    requires k < |inputs| && k + 1 < |states|
  {
    states[k].fsm.mode == mode ==>
      (ModeAt(states, k) != mode <==> Fresh(states[k], inputs[k]) && inputs[k].mailbox.command in numbers)
  }

  /** Main result: which commands end each mode. ENABLING ends also when it has lasted long enough, and
      ZERO_SETTING ends unless it takes ZERO_SET or RUN. */
  lemma ModeEndsExactly(d: real, states: seq<Memory>, inputs: seq<Input>, k: nat)
    requires IsRun(d, states, inputs) && k < |inputs|
    ensures EndsExactly(states, inputs, k, Normal, {2, 3, 4, 5, 6})
    ensures EndsExactly(states, inputs, k, Damping, {2, 4, 5, 6, 7})
    ensures EndsExactly(states, inputs, k, Disabled, {1, 3, 4, 5})
    ensures EndsExactly(states, inputs, k, Estop, {6})
    ensures states[k].fsm.mode == ZeroSetting ==>
              (ModeAt(states, k) == ZeroSetting <==> Takes(states, inputs, k, 4) || Takes(states, inputs, k, 7))
    ensures states[k].fsm.mode == Enabling ==>
              (ModeAt(states, k) != Enabling <==>
                 || (Fresh(states[k], inputs[k]) && inputs[k].mailbox.command in {2, 3, 4, 5, 6})
                 || inputs[k].now - states[k].fsm.enterTime >= d)
    ensures states[k].fsm.mode == Enabling && ModeAt(states, k) != Enabling
            && !(Fresh(states[k], inputs[k]) && inputs[k].mailbox.command in {2, 3, 4, 5, 6}) ==>
              ModeAt(states, k) == Damping
  {
  }

  // ----- How long it holds -----

  /** A mode that only commands end holds for as long as none is fresh. */
  lemma {:induction false} ModeHolds(d: real, states: seq<Memory>, inputs: seq<Input>, mode: Mode, e: nat, k: nat)
    requires IsRun(d, states, inputs) && e <= k < |inputs| && ModeAt(states, e) == mode
    requires mode == Disabled || mode == Damping || mode == Normal || mode == Estop
    requires forall j :: e < j <= k ==> !Fresh(states[j], inputs[j])
    ensures Throughout(states, mode, e, k)
    decreases k
  {
    if e < k {
      ModeHolds(d, states, inputs, mode, e, k - 1);
      assert ModeAt(states, k - 1) == mode;
    }
  }

  /** The actuator frames of a tick are one for each actuator, in order, with this data, and it records
      `source` and does not raise. */
  ghost predicate SendsToAll(cfg: Config, out: Output, data: seq<byte>, source: Source) {
    && !out.raised && out.recorded == Some(source) && |out.frames| == |cfg.actuators|
    && forall n :: 0 <= n < |out.frames| ==> out.frames[n] == CanFrame(cfg.actuators[n], data)
  }

  /** Main result. From the tick that takes DISABLE or RESET_FAULT outside ESTOP, and until one takes another
      fresh command, every tick acts in DISABLED and sends each actuator the exit frame and nothing else. */
  lemma DisableHolds(cfg: Config, states: seq<Memory>, inputs: seq<Input>, e: nat, k: nat)
    requires IsRun(cfg.enableDuration, states, inputs) && e <= k < |inputs| && WellTyped(inputs[k])
    requires states[e].fsm.mode != Estop && (Takes(states, inputs, e, 2) || Takes(states, inputs, e, 6))
    requires forall j :: e < j <= k ==> !Fresh(states[j], inputs[j])
    ensures ModeAt(states, k) == Disabled
    ensures SendsToAll(cfg, TickOutput(cfg, states[k], inputs[k]), [0xC2, 0, 0, 0, 0, 0, 0, 0], FromDisable)
  {
    CommandLeads(cfg.enableDuration, states, inputs, e);
    ModeHolds(cfg.enableDuration, states, inputs, Disabled, e, k);
  }

  /** The same after ESTOP, until a fresh RESET_FAULT, whatever other commands come. */
  lemma EstopHoldsExit(cfg: Config, states: seq<Memory>, inputs: seq<Input>, e: nat, k: nat)
    requires IsRun(cfg.enableDuration, states, inputs) && e <= k < |inputs| && WellTyped(inputs[k])
    requires Takes(states, inputs, e, 5) && forall j :: e < j <= k ==> !Takes(states, inputs, j, 6)
    ensures ModeAt(states, k) == Estop
    ensures SendsToAll(cfg, TickOutput(cfg, states[k], inputs[k]), [0xC2, 0, 0, 0, 0, 0, 0, 0], FromDisable)
  {
    assert forall j :: e < j <= k && TakenCode(states[j], inputs[j]) == ResetFault ==> Takes(states, inputs, j, 6);
    EstopLatch(cfg, states, inputs, e, k);
  }

  /** After DAMPING is taken outside ESTOP, every tick acts in DAMPING until another fresh command; and
      after a RUN taken in DAMPING, in NORMAL. */
  lemma DampingAndRunHold(d: real, states: seq<Memory>, inputs: seq<Input>, e: nat, k: nat)
    requires IsRun(d, states, inputs) && e <= k < |inputs|
    requires forall j :: e < j <= k ==> !Fresh(states[j], inputs[j])
    ensures states[e].fsm.mode != Estop && Takes(states, inputs, e, 3) ==> ModeAt(states, k) == Damping
    ensures states[e].fsm.mode == Damping && Takes(states, inputs, e, 7) ==> ModeAt(states, k) == Normal
  {
    CommandLeads(d, states, inputs, e);
    if states[e].fsm.mode != Estop && Takes(states, inputs, e, 3) { ModeHolds(d, states, inputs, Damping, e, k); }
    if states[e].fsm.mode == Damping && Takes(states, inputs, e, 7) { ModeHolds(d, states, inputs, Normal, e, k); }
  }

  /** An ENABLING tick sends each actuator the enter frame and nothing else. */
  lemma EnablingSendsEnter(cfg: Config, states: seq<Memory>, inputs: seq<Input>, k: nat)
    requires IsRun(cfg.enableDuration, states, inputs) && k < |inputs| && WellTyped(inputs[k])
    requires ModeAt(states, k) == Enabling
    ensures SendsToAll(cfg, TickOutput(cfg, states[k], inputs[k]), [0xC1, 0, 0, 0, 0, 0, 0, 0], FromEnable)
  {
  }
}
