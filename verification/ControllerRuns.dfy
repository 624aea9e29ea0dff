/** What the controller does over whole runs: the emergency-stop latch, where policy output can come
    from, and how often a command acts. A run lists the memory before each tick; the inputs, that
    is the clock readings and the mailbox contents at every tick, are arbitrary. */
module ControllerRuns {
  import opened Bytes
  import opened Options
  import opened ControlModeFsm
  import opened ControlLoop
  import opened SortedIds
  import opened Pacing
  import Q = Quantize
  import Mit = MitFrame
  import Zero = ZeroSet

  /** The memory of a controller that was just created. */
  predicate Initial(m: Memory) {
    m.fsm.mode == Disabled && m.lastConsumed == None
  }

  /** The mode that tick `k` acts in, after the state machine's update. */
  function ModeAt(states: seq<Memory>, k: nat): Mode
    requires k + 1 < |states|
  {
    states[k + 1].fsm.mode
  }

  /** All ticks from `i` to `j` act in `mode`. */
  predicate Throughout(states: seq<Memory>, mode: Mode, i: nat, j: nat)
    requires j + 1 < |states|
  {
    forall k: nat :: i <= k <= j ==> ModeAt(states, k) == mode
  }

  // ----- Emergency stop -----

  lemma {:induction false} EstopHolds(d: real, states: seq<Memory>, inputs: seq<Input>, e: nat, k: nat)
    requires IsRun(d, states, inputs) && e <= k < |inputs|
    requires TakenCode(states[e], inputs[e]) == EmergencyStop
    requires forall j :: e < j <= k ==> TakenCode(states[j], inputs[j]) != ResetFault
    ensures Throughout(states, Estop, e, k)
    decreases k
  {
    if e < k {
      EstopHolds(d, states, inputs, e, k - 1);
      assert ModeAt(states, k - 1) == Estop;
    }
  }

  /** From the tick that takes a fresh ESTOP on, and until one takes a fresh RESET_FAULT, every
      tick acts in ESTOP, completes, and sends each actuator the disable frame and nothing else. */
  lemma EstopLatch(cfg: Config, states: seq<Memory>, inputs: seq<Input>, e: nat, k: nat)
    requires IsRun(cfg.enableDuration, states, inputs) && e <= k < |inputs| && WellTyped(inputs[k])
    requires TakenCode(states[e], inputs[e]) == EmergencyStop
    requires forall j :: e < j <= k ==> TakenCode(states[j], inputs[j]) != ResetFault
    ensures ModeAt(states, k) == Estop
    ensures TickOutput(cfg, states[k], inputs[k])
            == Output(ToAll(cfg.actuators, Padded(CMD_MIT_EXIT)), false, Some(FromDisable))
  {
    EstopHolds(cfg.enableDuration, states, inputs, e, k);
  }

  /** A latched controller leaves ESTOP exactly by a fresh RESET_FAULT, and then into DISABLED. */
  lemma EstopEnds(d: real, states: seq<Memory>, inputs: seq<Input>, k: nat)
    requires IsRun(d, states, inputs) && k < |inputs| && states[k].fsm.mode == Estop
    ensures ModeAt(states, k) != Estop <==> TakenCode(states[k], inputs[k]) == ResetFault
    ensures ModeAt(states, k) != Estop ==> ModeAt(states, k) == Disabled
  {
  }

  /** UNKNOWN, and with it the catch-all branch of the dispatch, is never reached. */
  lemma {:induction false} UnknownUnreachable(d: real, states: seq<Memory>, inputs: seq<Input>, k: nat)
    requires IsRun(d, states, inputs) && Initial(states[0]) && k < |states|
    ensures states[k].fsm.mode != Unknown
    decreases k
  {
    if k > 0 { UnknownUnreachable(d, states, inputs, k - 1); }
  }

  // ----- One output path per tick -----

  /** The only opcode that a tick in this mode may send to an actuator. */
  function OpcodeOf(mode: Mode): byte {
    match mode
    case Enabling => 0xC1
    case ZeroSetting => 0xC3
    case Damping => 0xC0
    case Normal => 0xC0
    case _ => 0xC2
  }

  predicate AllCarry(frames: seq<CanFrame>, ids: set<int>, opcode: byte) {
    forall f :: f in frames ==> f.canId in ids && |f.data| == 8 && f.data[0] == opcode
  }

  lemma {:induction false} ZeroFramesCarry(cfg: Config, ids: seq<int>, offsets: map<int, int>)
    requires forall id :: id in offsets ==> -32768 <= offsets[id] <= 32767
    ensures AllCarry(ZeroFrames(cfg, ids, offsets), Ids(cfg.actuators), Zero.CMD_MIT_SET_ZERO)
  {
    if ids != [] {
      ZeroFramesCarry(cfg, ids[1..], offsets);
      var offset := if ids[0] in offsets then offsets[ids[0]] else 0;
      Zero.OffsetSurvives(offset, cfg.degrees(offset));
    }
  }

  lemma {:induction false} PolicyFramesCarry(cfg: Config, targets: seq<PolicyTarget>)
    ensures AllCarry(PolicyOutput(cfg, targets).frames, Ids(cfg.actuators), Mit.CMD_MIT_CONTROL)
    decreases |targets|
  {
    if targets != [] {
      PolicyFramesCarry(cfg, targets[1..]);
      Mit.DriverBytesMean(cfg.mit, targets[0].command);
    }
  }

  /** Every frame of a tick goes to a configured actuator and carries the one opcode of the tick's
      mode. In particular only NORMAL relays the policy, and only ENABLING sends enable frames. */
  lemma OneOutputPath(cfg: Config, states: seq<Memory>, inputs: seq<Input>, k: nat)
    requires IsRun(cfg.enableDuration, states, inputs) && k < |inputs| && WellTyped(inputs[k])
    ensures var out := TickOutput(cfg, states[k], inputs[k]);
            && AllCarry(out.frames, Ids(cfg.actuators), OpcodeOf(ModeAt(states, k)))
            && (out.recorded == Some(FromPolicy) ==> ModeAt(states, k) == Normal)
  {
    var op := Filtered(states[k].lastConsumed, inputs[k].mailbox);
    match ModeAt(states, k) {
      case ZeroSetting =>
        var r := Zero.Offsets(op);
        if r.Ok? {
          forall id | id in r.value ensures -32768 <= r.value[id] <= 32767 { OffsetsAreInt16(op, id); }
          ZeroFramesCarry(cfg, if r.value != map[] then Sorted(r.value.Keys) else Sorted(Ids(cfg.actuators)), r.value);
        }
      case Damping => Mit.DriverBytesMean(cfg.mit, DampingCommand(cfg));
      case Normal => PolicyFramesCarry(cfg, ValidTargets(inputs[k].policy));
      case _ =>
    }
  }

  /** What the policy commands makes a difference to a tick only in NORMAL: in every other mode the
      tick emits, raises and records the same for any policy command. */
  lemma PolicyIsIdle(cfg: Config, m: Memory, i: Input, other: PolicyCommand)
    requires WellTyped(i) && |other.targets| == MAX_TARGETS
    ensures var j := i.(policy := other);
            && Tick(cfg.enableDuration, m, j) == Tick(cfg.enableDuration, m, i)
            && (TickOutput(cfg, m, j) != TickOutput(cfg, m, i) ==> Tick(cfg.enableDuration, m, i).fsm.mode == Normal)
  {
  }

  /** Damping output commands every actuator, in increasing order of identifier, to hold no
      position, velocity, stiffness or torque: only the damping gain is not zero. It raises, before
      it sends anything, exactly if a range of the wire format is empty or the gain is not in its. */
  lemma DampingFramesMean(cfg: Config)
    ensures var out, ids := DampingOutput(cfg), Sorted(Ids(cfg.actuators));
            && (out.raised <==> cfg.actuators != [] && !GainFits(cfg))
            && (out.raised ==> out.frames == []) && out.recorded == Some(FromDamping)
            && (!out.raised ==> |out.frames| == |ids| && forall k :: 0 <= k < |ids| ==>
                  && out.frames[k].canId == ids[k] && |out.frames[k].data| == 8
                  && DampsOnly(cfg, Mit.Unpack(out.frames[k].data)))
  {
    NoneSorted(cfg.actuators);
    Mit.DriverBytesMean(cfg.mit, DampingCommand(cfg));
    if GainFits(cfg) { Mit.CentreWords(cfg.mit, DampingCommand(cfg)); }
  }

  predicate GainFits(cfg: Config) {
    Mit.PositiveSpans(cfg.mit) && 0.0 <= cfg.dampingKd <= cfg.mit.kdMax
  }

  predicate DampsOnly(cfg: Config, w: Mit.Words) {
    && w.p == 0x8000 && w.v == 0x800 && w.kp == 0 && w.t == 0x80
    && GainFits(cfg) && w.kd == Q.RoundHalfAway(Q.Scaled(cfg.dampingKd, 0.0, cfg.mit.kdMax, 8))
  }

  /** The targets that name a configured actuator. */
  function KnownTargets(cfg: Config, targets: seq<PolicyTarget>): seq<PolicyTarget>
    decreases |targets|
  {
    if targets == [] then []
    else
      var rest := KnownTargets(cfg, targets[1..]);
      if targets[0].canId in Ids(cfg.actuators) then [targets[0]] + rest else rest
  }

  /** The frame is for the target's actuator, and its five words are the nearest to the command. */
  predicate Relays(cfg: Config, f: CanFrame, t: PolicyTarget) {
    && f.canId == t.canId && |f.data| == 8
    && Mit.AllInRange(cfg.mit, t.command) && Mit.PositiveSpans(cfg.mit)
    && Mit.Unpack(f.data) == Mit.Rounded(cfg.mit, t.command, Q.RoundHalfAway)
  }

  /** The frames relay these targets in order, one frame each, up to the first that cannot be packed. The
      tick raises if there is one, and for no other reason. */
  ghost predicate RelaysUpTo(cfg: Config, out: Output, known: seq<PolicyTarget>) {
    && |out.frames| <= |known|
    && (out.raised <==> |out.frames| < |known|)
    && (out.raised ==> Mit.MitPayload(cfg.mit, known[|out.frames|].command).Err?)
    && forall n :: 0 <= n < |out.frames| ==> Relays(cfg, out.frames[n], known[n])
  }

  lemma RelayOneMore(cfg: Config, f: CanFrame, t: PolicyTarget, rest: Output, known: seq<PolicyTarget>)
    requires RelaysUpTo(cfg, rest, known) && Relays(cfg, f, t)
    ensures RelaysUpTo(cfg, rest.(frames := [f] + rest.frames), [t] + known)
  {
  }

  /** Policy output relays the known targets. */
  lemma {:induction false} PolicyFramesMean(cfg: Config, targets: seq<PolicyTarget>)
    ensures RelaysUpTo(cfg, PolicyOutput(cfg, targets), KnownTargets(cfg, targets))
    decreases |targets|
  {
    if targets != [] {
      var t, rest := targets[0], targets[1..];
      PolicyFramesMean(cfg, rest);
      if t.canId in Ids(cfg.actuators) {
        Mit.DriverBytesMean(cfg.mit, t.command);
        var payload := Mit.MitPayload(cfg.mit, t.command);
        if payload.Ok? {
          RelayOneMore(cfg, CanFrame(t.canId, payload.value), t, PolicyOutput(cfg, rest), KnownTargets(cfg, rest));
        }
      }
    }
  }

  // ----- How long enabling lasts -----

  /** Within an ENABLING interval the clock of the mode is never restarted, by whatever commands. */
  lemma {:induction false} EnablingClock(d: real, states: seq<Memory>, inputs: seq<Input>, e: nat, k: nat)
    requires IsRun(d, states, inputs) && e <= k < |inputs|
    requires states[e].fsm.mode != Enabling && Throughout(states, Enabling, e, k)
    ensures states[k + 1].fsm.enterTime == inputs[e].now
    ensures e < k ==> inputs[k].now - inputs[e].now < d
    decreases k
  {
    assert ModeAt(states, k) == Enabling;
    if e < k {
      EnablingClock(d, states, inputs, e, k - 1);
      assert ModeAt(states, k - 1) == Enabling;
    }
  }

  lemma {:induction false} PolicyRecords(cfg: Config, targets: seq<PolicyTarget>)
    ensures PolicyOutput(cfg, targets).recorded == if PolicyOutput(cfg, targets).raised then None else Some(FromPolicy)
    decreases |targets|
  {
    if targets != [] { PolicyRecords(cfg, targets[1..]); }
  }

  /** A tick in ENABLING sends the enable frame to the actuators in order, and nothing else. */
  lemma EnablingOutput(cfg: Config, states: seq<Memory>, inputs: seq<Input>, k: nat)
    requires IsRun(cfg.enableDuration, states, inputs) && k < |inputs| && WellTyped(inputs[k])
    ensures ModeAt(states, k) == Enabling <==>
              TickOutput(cfg, states[k], inputs[k])
              == Output(ToAll(cfg.actuators, Padded(CMD_MIT_ENTER)), false, Some(FromEnable))
  {
    PolicyRecords(cfg, ValidTargets(inputs[k].policy));
  }

  predicate IsEnableFrame(f: CanFrame) {
    |f.data| == 8 && f.data[0] == 0xC1
  }

  /** `frames[n]` is the only frame for `id`. */
  predicate OnlyFrameFor(frames: seq<CanFrame>, id: int, n: nat) {
    n < |frames| && frames[n].canId == id && forall m: nat :: m < |frames| && frames[m].canId == id ==> m == n
  }

  /** Enable frames go out in ENABLING only, and then, as identifiers are distinct, exactly one to
      each actuator. */
  lemma EnableFramesExactly(cfg: Config, states: seq<Memory>, inputs: seq<Input>, k: nat)
    requires IsRun(cfg.enableDuration, states, inputs) && k < |inputs| && WellTyped(inputs[k])
    requires StandardIds(cfg.actuators)
    ensures var frames := TickOutput(cfg, states[k], inputs[k]).frames;
            && ((exists f :: f in frames && IsEnableFrame(f)) <==> ModeAt(states, k) == Enabling && cfg.actuators != [])
            && (ModeAt(states, k) == Enabling ==>
                  && (forall f :: f in frames ==> IsEnableFrame(f) && f.canId in Ids(cfg.actuators))
                  && forall id :: id in Ids(cfg.actuators) ==> exists n: nat :: OnlyFrameFor(frames, id, n))
  {
    var frames := TickOutput(cfg, states[k], inputs[k]).frames;
    OneOutputPath(cfg, states, inputs, k);
    if ModeAt(states, k) == Enabling {
      EnablingOutput(cfg, states, inputs, k);
      if cfg.actuators != [] { assert IsEnableFrame(frames[0]) && frames[0] in frames; }
      forall id | id in Ids(cfg.actuators) ensures exists n: nat :: OnlyFrameFor(frames, id, n) {
        var n: nat :| n < |cfg.actuators| && cfg.actuators[n] == id;
        assert OnlyFrameFor(frames, id, n);
      }
    }
  }

  /** On one shared clock an ENABLING interval covers fewer than D / P + 2 ticks. */
  lemma EnablingIsBounded(cfg: Config, period: real, t0: real, timings: seq<Timing>,
                          states: seq<Memory>, inputs: seq<Input>, e: nat, k: nat)
    requires IsRun(cfg.enableDuration, states, inputs) && |timings| == |inputs| && e <= k < |inputs|
    requires period > 0.0 && cfg.enableDuration >= 0.0 && ClockOk(t0, period, timings)
    requires forall j :: 0 <= j < |inputs| ==> timings[j].start <= inputs[j].now <= timings[j].finish
    requires states[e].fsm.mode != Enabling && Throughout(states, Enabling, e, k)
    ensures (k - e + 1) as real < cfg.enableDuration / period + 2.0
  {
    if e < k {
      EnablingClock(cfg.enableDuration, states, inputs, e, k);
      NoCatchUpBurst(t0, period, timings, e, k - e - 1);
      PeriodsMultiply(k - e - 1, period);
      Divided(k - e - 1, period, cfg.enableDuration, inputs[k].now - inputs[e].now);
    } else {
      Quotient(period, cfg.enableDuration);
    }
  }

  lemma Quotient(period: real, duration: real)
    requires period > 0.0 && duration >= 0.0
    ensures duration / period >= 0.0
  {
  }

  lemma Divided(n: int, period: real, duration: real, elapsed: real)
    requires period > 0.0 && n as real * period <= elapsed < duration
    ensures n as real < duration / period
  {
    var q := duration / period;
    assert q * period == duration;
    assert (q - n as real) * period > 0.0;
  }

  // ----- What a run emits -----

  /** What a run has emitted goes on, at each tick, with the request to the IMU, if every tick makes one, and
      then with the frames of the tick. */
  lemma {:induction false} EmittedTickByTick(cfg: Config, outs: seq<Output>, k: nat)
    requires k < |outs|
    ensures var before, frames := Emitted(cfg, outs[..k]), outs[k].frames;
            && (cfg.imuRequest.None? ==> before + frames <= Emitted(cfg, outs))
            && (cfg.imuRequest.Some? ==> before + [cfg.imuRequest.value] + frames <= Emitted(cfg, outs))
    decreases |outs|
  {
    var n := |outs| - 1;
    if k < n {
      EmittedTickByTick(cfg, outs[..n], k);
      assert outs[..n][..k] == outs[..k];
    }
  }

  // ----- When the ticks of a run start -----

  /** The sleeps that `Run` returns, by the clock alone: before tick `k` it sleeps until exactly `k` periods
      after the start if no tick before overran, and otherwise until exactly so many periods after
      the end of the last one that did. It does not sleep if that time is over. */
  lemma SleepsExactly(t0: real, period: real, timings: seq<Timing>, waits: seq<real>, k: nat)
    requires Slept(t0, period, timings, waits) && k < |waits|
    ensures NoOverrun(t0, period, timings, 0, k) ==>
              waits[k] == TimeUntil(t0 + k as real * period, timings[k].arrive)
    ensures forall j: nat :: j < k && Overruns(t0, period, timings, j) && NoOverrun(t0, period, timings, j + 1, k) ==>
              waits[k] == TimeUntil(timings[j].finish + (k - j) as real * period, timings[k].arrive)
  {
    assert SleptAt(t0, period, timings, k, waits[k]);
    if NoOverrun(t0, period, timings, 0, k) { OnTime(t0, period, timings, k); }
    forall j: nat | j < k && Overruns(t0, period, timings, j) && NoOverrun(t0, period, timings, j + 1, k)
      ensures waits[k] == TimeUntil(timings[j].finish + (k - j) as real * period, timings[k].arrive)
    {
      OnTimeAfterOverrun(t0, period, timings, j, k);
    }
  }

  function TimeUntil(due: real, now: real): real {
    if due > now then due - now else 0.0
  }

  // ----- Provenance of policy output -----

  /** A NORMAL interval began with a fresh RUN taken in DAMPING. */
  lemma {:induction false} NormalBeganByRun(d: real, states: seq<Memory>, inputs: seq<Input>, k: nat) returns (r: nat)
    requires IsRun(d, states, inputs) && Initial(states[0]) && k < |inputs| && ModeAt(states, k) == Normal
    ensures r <= k && Throughout(states, Normal, r, k)
    ensures states[r].fsm.mode == Damping && TakenCode(states[r], inputs[r]) == Run
    decreases k
  {
    r := k;
    if states[k].fsm.mode == Normal {
      assert ModeAt(states, k - 1) == Normal;
      r := NormalBeganByRun(d, states, inputs, k - 1);
    }
  }

  /** An ENABLING interval began with a fresh ENABLE, and its clock shows that moment. */
  lemma {:induction false} EnablingBegan(d: real, states: seq<Memory>, inputs: seq<Input>, k: nat) returns (e: nat)
    requires IsRun(d, states, inputs) && Initial(states[0]) && k < |inputs| && ModeAt(states, k) == Enabling
    ensures e <= k && Throughout(states, Enabling, e, k)
    ensures states[e].fsm.mode == Disabled || states[e].fsm.mode == ZeroSetting
    ensures TakenCode(states[e], inputs[e]) == Enable
    ensures states[k + 1].fsm.enterTime == inputs[e].now
    decreases k
  {
    e := k;
    if states[k].fsm.mode == Enabling {
      assert ModeAt(states, k - 1) == Enabling;
      e := EnablingBegan(d, states, inputs, k - 1);
    }
  }

  /** A DAMPING interval began with a fresh DAMPING, or at the end of an ENABLING interval that a
      fresh ENABLE had begun at least the enabling duration earlier. */
  lemma {:induction false} DampingBegan(d: real, states: seq<Memory>, inputs: seq<Input>, k: nat)
    returns (b: nat, e: nat)
    requires IsRun(d, states, inputs) && Initial(states[0]) && k < |inputs| && ModeAt(states, k) == Damping
    ensures b <= k && Throughout(states, Damping, b, k) && states[b].fsm.mode != Damping
    ensures TakenCode(states[b], inputs[b]) == Damp ||
            (&& e < b && Throughout(states, Enabling, e, b - 1)
             && TakenCode(states[e], inputs[e]) == Enable
             && (states[e].fsm.mode == Disabled || states[e].fsm.mode == ZeroSetting)
             && inputs[b].now - inputs[e].now >= d)
    decreases k
  {
    b, e := k, 0;
    if states[k].fsm.mode == Damping {
      assert ModeAt(states, k - 1) == Damping;
      b, e := DampingBegan(d, states, inputs, k - 1);
    } else if TakenCode(states[k], inputs[k]) != Damp {
      assert k > 0 && ModeAt(states, k - 1) == Enabling;
      e := EnablingBegan(d, states, inputs, k - 1);
    }
  }

  /** Main result. Every tick that acts in NORMAL, which is every tick that the policy can influence,
      lies in a NORMAL interval begun by a fresh RUN, directly after a DAMPING interval, which in
      turn began by a fresh DAMPING command or after a full enabling duration. */
  lemma PolicyProvenance(d: real, states: seq<Memory>, inputs: seq<Input>, k: nat) returns (r: nat, b: nat, e: nat)
    requires IsRun(d, states, inputs) && Initial(states[0]) && k < |inputs| && ModeAt(states, k) == Normal
    ensures b < r <= k && Throughout(states, Normal, r, k) && TakenCode(states[r], inputs[r]) == Run
    ensures Throughout(states, Damping, b, r - 1) && states[b].fsm.mode != Damping
    ensures TakenCode(states[b], inputs[b]) == Damp ||
            (&& e < b && Throughout(states, Enabling, e, b - 1)
             && TakenCode(states[e], inputs[e]) == Enable
             && inputs[b].now - inputs[e].now >= d)
  {
    r := NormalBeganByRun(d, states, inputs, k);
    assert ModeAt(states, r - 1) == Damping;
    b, e := DampingBegan(d, states, inputs, r - 1);
  }

  /** In particular: wherever another policy command would have changed what a tick puts out, the
      tick has that provenance. */
  lemma InfluenceHasProvenance(cfg: Config, states: seq<Memory>, inputs: seq<Input>, k: nat, other: PolicyCommand)
    returns (r: nat, b: nat, e: nat)
    requires IsRun(cfg.enableDuration, states, inputs) && Initial(states[0]) && k < |inputs|
    requires WellTyped(inputs[k]) && |other.targets| == MAX_TARGETS
    requires TickOutput(cfg, states[k], inputs[k].(policy := other)) != TickOutput(cfg, states[k], inputs[k])
    ensures b < r <= k && Throughout(states, Normal, r, k) && TakenCode(states[r], inputs[r]) == Run
    ensures Throughout(states, Damping, b, r - 1) && states[b].fsm.mode != Damping
    ensures TakenCode(states[b], inputs[b]) == Damp ||
            (&& e < b && Throughout(states, Enabling, e, b - 1)
             && TakenCode(states[e], inputs[e]) == Enable
             && inputs[b].now - inputs[e].now >= cfg.enableDuration)
  {
    PolicyIsIdle(cfg, states[k], inputs[k], other);
    r, b, e := PolicyProvenance(cfg.enableDuration, states, inputs, k);
  }

  // ----- Commands act once -----

  /** Tick `k` is the last one before tick `j` whose mailbox held a command. */
  predicate LastCommand(inputs: seq<Input>, k: nat, j: nat) {
    && k < j <= |inputs| && MailboxCode(inputs[k].mailbox) != NoCommand
    && forall i :: k < i < j ==> MailboxCode(inputs[i].mailbox) == NoCommand
  }

  /** What the controller remembers is the timestamp of the last command other than NONE that it has
      seen; a command acts exactly when it is not NONE and its timestamp differs from that one. */
  lemma {:induction false} FreshExactly(d: real, states: seq<Memory>, inputs: seq<Input>, j: nat)
    requires IsRun(d, states, inputs) && states[0].lastConsumed == None && j <= |inputs|
    ensures match states[j].lastConsumed
            case None => forall i :: 0 <= i < j ==> MailboxCode(inputs[i].mailbox) == NoCommand
            case Some(t) => exists k: nat :: LastCommand(inputs, k, j) && inputs[k].mailbox.timestampNs == t
    decreases j
  {
    if j > 0 {
      FreshExactly(d, states, inputs, j - 1);
      if MailboxCode(inputs[j - 1].mailbox) != NoCommand {
        assert LastCommand(inputs, j - 1, j);
      } else if states[j].lastConsumed.Some? {
        var k: nat :| LastCommand(inputs, k, j - 1) && inputs[k].mailbox.timestampNs == states[j].lastConsumed.value;
        assert LastCommand(inputs, k, j);
      }
    }
  }

  /** Exactly when a command acts: if it is not NONE, and no command was shown before it or the
      last one shown has another timestamp. */
  lemma ActsExactly(d: real, states: seq<Memory>, inputs: seq<Input>, j: nat)
    requires IsRun(d, states, inputs) && states[0].lastConsumed == None && j < |inputs|
    ensures var c := inputs[j].mailbox;
            var acts := MailboxCode(c) != NoCommand
                        && forall k: nat :: LastCommand(inputs, k, j) ==>
                             inputs[k].mailbox.timestampNs != c.timestampNs;
            TakenCode(states[j], inputs[j]) == if acts then MailboxCode(c) else NoCommand
  {
    FreshExactly(d, states, inputs, j);
    if states[j].lastConsumed.Some? {
      var k: nat :| LastCommand(inputs, k, j) && inputs[k].mailbox.timestampNs == states[j].lastConsumed.value;
      assert forall k': nat :: LastCommand(inputs, k', j) ==> k' == k;
    }
  }

  /** What the mailbox shows comes from a log of published commands, never from an older entry after a
      newer one; some entries may never show and some many times. A relaxed read may meet a write,
      so the timestamp of a reading may come from another entry than its code: `times` and `codes`
      list the entries of both. */
  ghost predicate MixedValue(inputs: seq<Input>, log: seq<Zero.OperatorCommand>, times: seq<nat>, codes: seq<nat>) {
    && |times| == |codes| == |inputs|
    && (forall k :: 0 <= k < |inputs| ==>
          && times[k] < |log| && inputs[k].mailbox.timestampNs == log[times[k]].timestampNs
          && codes[k] < |log| && inputs[k].mailbox.command == log[codes[k]].command)
    && (forall i, j :: 0 <= i < j < |times| ==> times[i] <= times[j])
  }

  ghost predicate DistinctTimestamps(log: seq<Zero.OperatorCommand>) {
    forall i, j :: 0 <= i < j < |log| ==> log[i].timestampNs != log[j].timestampNs
  }

  /** Tick `i` showed a command under the timestamp of entry `n`. */
  predicate ShowsUnder(inputs: seq<Input>, times: seq<nat>, n: nat, i: nat) {
    i < |inputs| && i < |times| && times[i] == n && MailboxCode(inputs[i].mailbox) != NoCommand
  }

  lemma {:induction false} SomeLastCommand(inputs: seq<Input>, i: nat, j: nat) returns (p: nat)
    requires i < j <= |inputs| && MailboxCode(inputs[i].mailbox) != NoCommand
    ensures i <= p && LastCommand(inputs, p, j)
    decreases j
  {
    p := j - 1;
    if MailboxCode(inputs[p].mailbox) == NoCommand { p := SomeLastCommand(inputs, i, j - 1); }
  }

  /** Main result. With distinct timestamps in the log, and however readings mix its entries, each
      timestamp acts once: at the first tick that shows a command under it, with the code shown. */
  lemma TimestampActsOnce(d: real, states: seq<Memory>, inputs: seq<Input>, log: seq<Zero.OperatorCommand>,
                          times: seq<nat>, codes: seq<nat>, k: nat)
    requires IsRun(d, states, inputs) && states[0].lastConsumed == None && k < |inputs|
    requires MixedValue(inputs, log, times, codes) && DistinctTimestamps(log)
    ensures TakenCode(states[k], inputs[k]) ==
              if exists i: nat :: i < k && ShowsUnder(inputs, times, times[k], i) then NoCommand
              else MailboxCode(inputs[k].mailbox)
  {
    ActsExactly(d, states, inputs, k);
    if MailboxCode(inputs[k].mailbox) != NoCommand {
      ShownBefore(inputs, log, times, codes, k);
    }
  }

  /** A command was shown before under the same timestamp exactly if the last one shown before has it. */
  lemma ShownBefore(inputs: seq<Input>, log: seq<Zero.OperatorCommand>, times: seq<nat>, codes: seq<nat>, k: nat)
    requires k < |inputs| && MixedValue(inputs, log, times, codes) && DistinctTimestamps(log)
    ensures (exists i: nat :: i < k && ShowsUnder(inputs, times, times[k], i)) <==>
            exists p: nat :: LastCommand(inputs, p, k) && inputs[p].mailbox.timestampNs == inputs[k].mailbox.timestampNs
  {
    if i: nat :| i < k && ShowsUnder(inputs, times, times[k], i) {
      var p := SomeLastCommand(inputs, i, k);
      SameTimestamp(inputs, log, times, codes, p, k);
      assert times[i] <= times[p];
    }
    if p: nat :| LastCommand(inputs, p, k) && inputs[p].mailbox.timestampNs == inputs[k].mailbox.timestampNs {
      SameTimestamp(inputs, log, times, codes, p, k);
      assert ShowsUnder(inputs, times, times[k], p);
    }
  }

  lemma SameTimestamp(inputs: seq<Input>, log: seq<Zero.OperatorCommand>, times: seq<nat>, codes: seq<nat>,
                      p: nat, k: nat)
    requires p < k < |inputs| && MixedValue(inputs, log, times, codes) && DistinctTimestamps(log)
    ensures times[p] <= times[k]
    ensures inputs[p].mailbox.timestampNs == inputs[k].mailbox.timestampNs <==> times[p] == times[k]
  {
    if times[p] < times[k] { assert log[times[p]].timestampNs != log[times[k]].timestampNs; }
  }

  /** So entry `n` of the log takes effect exactly if its own code is what is shown first under its
      timestamp; otherwise it is lost, or another code takes its place. */
  lemma EntryActsExactly(d: real, states: seq<Memory>, inputs: seq<Input>, log: seq<Zero.OperatorCommand>,
                         times: seq<nat>, codes: seq<nat>, n: nat)
    requires IsRun(d, states, inputs) && states[0].lastConsumed == None
    requires MixedValue(inputs, log, times, codes) && DistinctTimestamps(log)
    requires n < |log| && MailboxCode(log[n]) != NoCommand
    ensures (exists k: nat :: k < |inputs| && times[k] == n && TakenCode(states[k], inputs[k]) == MailboxCode(log[n]))
            <==> exists f: nat ::
                   FirstUnder(inputs, times, n, f) && MailboxCode(inputs[f].mailbox) == MailboxCode(log[n])
  {
    forall k: nat | k < |inputs| && times[k] == n
      ensures FirstUnder(inputs, times, n, k) ==> TakenCode(states[k], inputs[k]) == MailboxCode(inputs[k].mailbox)
      ensures !FirstUnder(inputs, times, n, k) ==> TakenCode(states[k], inputs[k]) == NoCommand
    {
      TimestampActsOnce(d, states, inputs, log, times, codes, k);
    }
  }

  /** Tick `f` is the first to show a command under the timestamp of entry `n`. */
  predicate FirstUnder(inputs: seq<Input>, times: seq<nat>, n: nat, f: nat) {
    ShowsUnder(inputs, times, n, f) && forall i: nat :: i < f ==> !ShowsUnder(inputs, times, n, i)
  }

  /** The mailbox always shows one whole entry. */
  ghost predicate LatestValue(inputs: seq<Input>, log: seq<Zero.OperatorCommand>, shown: seq<nat>) {
    MixedValue(inputs, log, shown, shown)
  }

  /** Then a published command acts at the first tick that shows it, and at no other: however long it
      stays in the mailbox it acts once. */
  lemma ConsumedOnce(d: real, states: seq<Memory>, inputs: seq<Input>, log: seq<Zero.OperatorCommand>,
                     shown: seq<nat>, k: nat)
    requires IsRun(d, states, inputs) && states[0].lastConsumed == None && k < |inputs|
    requires LatestValue(inputs, log, shown) && DistinctTimestamps(log)
    ensures TakenCode(states[k], inputs[k]) ==
              if forall i :: 0 <= i < k ==> shown[i] != shown[k] then MailboxCode(inputs[k].mailbox) else NoCommand
  {
    TimestampActsOnce(d, states, inputs, log, shown, shown, k);
    if i :| 0 <= i < k && shown[i] == shown[k] {
      assert MailboxCode(inputs[i].mailbox) == MailboxCode(inputs[k].mailbox);
      assert MailboxCode(inputs[k].mailbox) != NoCommand ==> ShowsUnder(inputs, shown, shown[k], i);
    }
  }

  /** Whole readings are needed: from the start, a reading that already shows the timestamp of an
      emergency stop but still the code of the command before it consumes that timestamp, and
      the emergency stop does nothing, although all timestamps are distinct. */
  lemma MixedReadingLosesEstop(d: real, m: Memory, damp: Input, mixed: Input, stop: Input)
    returns (states: seq<Memory>)
    requires Initial(m) && damp.mailbox.command == 3 && stop.mailbox.command == 5
    requires mixed.mailbox.timestampNs == stop.mailbox.timestampNs != damp.mailbox.timestampNs
    requires mixed.mailbox.command == damp.mailbox.command
    ensures var log := [damp.mailbox, stop.mailbox];
            DistinctTimestamps(log) && MixedValue([damp, mixed, stop], log, [0, 1, 1], [0, 0, 1])
    ensures IsRun(d, states, [damp, mixed, stop]) && states[0] == m
    ensures forall k: nat :: k < 3 ==> ModeAt(states, k) == Damping
  {
    var m1 := Tick(d, m, damp);
    var m2 := Tick(d, m1, mixed);
    states := [m, m1, m2, Tick(d, m2, stop)];
  }

  /** So distinct timestamps are needed: from the start, an emergency stop that repeats the timestamp
      of the command before it does nothing. */
  lemma EqualTimestampLosesEstop(d: real, m: Memory, damp: Input, stop: Input) returns (states: seq<Memory>)
    requires Initial(m) && damp.mailbox.command == 3 && stop.mailbox.command == 5
    requires damp.mailbox.timestampNs == stop.mailbox.timestampNs
    ensures IsRun(d, states, [damp, stop]) && states[0] == m
    ensures ModeAt(states, 0) == Damping && ModeAt(states, 1) == Damping
  {
    var m1 := Tick(d, m, damp);
    states := [m, m1, Tick(d, m1, stop)];
  }

  // ----- Zero setting -----

  /** ZERO_SETTING lasts one more tick exactly on a fresh ZERO_SET or a fresh RUN; without a fresh
      command it ends in DISABLED. */
  lemma ZeroSettingIsOneShot(d: real, states: seq<Memory>, inputs: seq<Input>, k: nat)
    requires IsRun(d, states, inputs) && k < |inputs| && states[k].fsm.mode == ZeroSetting
    ensures ModeAt(states, k) == ZeroSetting <==>
              TakenCode(states[k], inputs[k]) == ZeroSet || TakenCode(states[k], inputs[k]) == Run
    ensures TakenCode(states[k], inputs[k]) == NoCommand ==> ModeAt(states, k) == Disabled
  {
  }

  /** A RUN that is taken in ZERO_SETTING does not run anything: it repeats the zero set, on every
      actuator and with offset 0 when, as usual, the command lists no targets. */
  lemma RunRepeatsZeroSet(cfg: Config, states: seq<Memory>, inputs: seq<Input>, k: nat)
    requires IsRun(cfg.enableDuration, states, inputs) && k < |inputs| && WellTyped(inputs[k])
    requires states[k].fsm.mode == ZeroSetting && TakenCode(states[k], inputs[k]) == Run
    requires inputs[k].mailbox.zeroTargetCount == 0
    ensures var out := TickOutput(cfg, states[k], inputs[k]);
            && out == Output(ZeroFrames(cfg, Sorted(Ids(cfg.actuators)), map[]), false, Some(FromZeroSet))
            && |out.frames| == |Sorted(Ids(cfg.actuators))|
            && forall n :: 0 <= n < |out.frames| ==>
                 && out.frames[n].canId == Sorted(Ids(cfg.actuators))[n]
                 && |out.frames[n].data| == 8 && Zero.AckOffset(out.frames[n].data) == 0
  {
    ZeroFramesInOrder(cfg, Sorted(Ids(cfg.actuators)), map[]);
  }

  /** The zero-set frames go to the identifiers in the given order, once each, unknown ones being
      skipped, and an actuator decodes exactly the offset resolved for it (0 if none was). */
  lemma {:induction false} ZeroFramesInOrder(cfg: Config, ids: seq<int>, offsets: map<int, int>)
    requires forall id :: id in offsets ==> -32768 <= offsets[id] <= 32767
    ensures var frames := ZeroFrames(cfg, ids, offsets);
            var known := Known(ids, Ids(cfg.actuators));
            && |frames| == |known|
            && forall n :: 0 <= n < |frames| ==>
                 && frames[n].canId == known[n] && |frames[n].data| == 8
                 && Zero.AckOffset(frames[n].data) == if known[n] in offsets then offsets[known[n]] else 0
    ensures (forall id :: id in ids ==> id in Ids(cfg.actuators)) ==> Known(ids, Ids(cfg.actuators)) == ids
  {
    if ids != [] {
      ZeroFramesInOrder(cfg, ids[1..], offsets);
      var offset := if ids[0] in offsets then offsets[ids[0]] else 0;
      Zero.OffsetSurvives(offset, cfg.degrees(offset));
      assert ids == [ids[0]] + ids[1..];
    }
  }

  /** The actuators that a fold of zero targets concerns: those it names, or all if it is empty. */
  ghost function ZeroedBy(cfg: Config, fold: map<int, int>): seq<int> {
    if fold != map[] then Known(Sorted(fold.Keys), Ids(cfg.actuators)) else Sorted(Ids(cfg.actuators))
  }

  /** One frame for each of them, in increasing order, that carries its offset of the fold, or 0. */
  ghost predicate Zeroes(cfg: Config, frames: seq<CanFrame>, fold: map<int, int>) {
    var ids := ZeroedBy(cfg, fold);
    && |frames| == |ids|
    && forall n :: 0 <= n < |ids| ==>
         && frames[n].canId == ids[n] && |frames[n].data| == 8
         && Zero.AckOffset(frames[n].data) == if ids[n] in fold then fold[ids[n]] else 0
  }

  lemma ZeroFramesTo(cfg: Config, ids: seq<int>, fold: map<int, int>)
    requires forall id :: id in fold ==> -32768 <= fold[id] <= 32767
    requires ZeroedBy(cfg, fold) == Known(ids, Ids(cfg.actuators))
    ensures Zeroes(cfg, ZeroFrames(cfg, ids, fold), fold)
  {
    ZeroFramesInOrder(cfg, ids, fold);
  }

  lemma {:induction false} KnownAll(ids: seq<int>, actuators: set<int>)
    requires forall k :: 0 <= k < |ids| ==> ids[k] in actuators
    ensures Known(ids, actuators) == ids
  {
    if ids != [] {
      KnownAll(ids[1..], actuators);
      assert ids == [ids[0]] + ids[1..];
    }
  }

  lemma ZeroFramesMean(cfg: Config, fold: map<int, int>)
    requires forall id :: id in fold ==> -32768 <= fold[id] <= 32767
    ensures var ids := if fold != map[] then Sorted(fold.Keys) else Sorted(Ids(cfg.actuators));
            Zeroes(cfg, ZeroFrames(cfg, ids, fold), fold)
  {
    if fold != map[] {
      ZeroFramesTo(cfg, Sorted(fold.Keys), fold);
    } else {
      var ids := Sorted(Ids(cfg.actuators));
      assert forall k :: 0 <= k < |ids| ==> ids[k] in ids;
      KnownAll(ids, Ids(cfg.actuators));
      ZeroFramesTo(cfg, ids, fold);
    }
  }

  lemma ZeroOutputMeans(cfg: Config, op: Zero.OperatorCommand, targets: seq<Zero.ZeroTarget>)
    requires Int16Offsets(op) && Zero.TargetsValid(targets) && Zero.Carries(op, targets)
    ensures var out := ZeroOutput(cfg, op);
            !out.raised && out.recorded == Some(FromZeroSet) && Zeroes(cfg, out.frames, Zero.Resolve(targets))
  {
    var fold := Zero.Resolve(targets);
    Zero.PipelineFaithful(op, targets, cfg.degrees, 0);
    forall id | id in fold ensures -32768 <= fold[id] <= 32767 { OffsetsAreInt16(op, id); }
    ZeroFramesMean(cfg, fold);
  }

  /** Main result for the zero-set pipeline. A tick that acts in ZERO_SETTING on a fresh command built
      from `targets` never raises. It sends one frame, in increasing order of identifier, to each
      actuator that the last-wins fold of the targets names, or to all actuators if the fold is empty;
      each actuator decodes the offset that the fold holds for it, or 0. */
  lemma ZeroSetTickMeans(cfg: Config, states: seq<Memory>, inputs: seq<Input>, k: nat, targets: seq<Zero.ZeroTarget>)
    requires IsRun(cfg.enableDuration, states, inputs) && k < |inputs| && WellTyped(inputs[k])
    requires ModeAt(states, k) == ZeroSetting && IsFresh(states[k].lastConsumed, inputs[k].mailbox)
    requires Zero.TargetsValid(targets) && Zero.Carries(inputs[k].mailbox, targets)
    ensures var out := TickOutput(cfg, states[k], inputs[k]);
            !out.raised && out.recorded == Some(FromZeroSet) && Zeroes(cfg, out.frames, Zero.Resolve(targets))
  {
    ZeroOutputMeans(cfg, inputs[k].mailbox, targets);
  }

  /** A command announces zero targets that the controller refuses. */
  predicate Malformed(c: Zero.OperatorCommand) {
    c.zeroTargetCount > 0 && (c.zeroTargetMagic != 0x5A45524F || c.zeroTargetCount > 24)
  }

  /** Main result, for any contents of the mailbox. Every tick that acts in ZERO_SETTING does so on a fresh
      command. It raises if and only if that command is malformed, and then sends and records nothing;
      otherwise it zeroes the actuators that the fold of the announced targets concerns. */
  lemma ZeroSetTickExactly(cfg: Config, states: seq<Memory>, inputs: seq<Input>, k: nat)
    requires IsRun(cfg.enableDuration, states, inputs) && k < |inputs| && WellTyped(inputs[k])
    requires ModeAt(states, k) == ZeroSetting
    ensures IsFresh(states[k].lastConsumed, inputs[k].mailbox)
    ensures var out, c := TickOutput(cfg, states[k], inputs[k]), inputs[k].mailbox;
            && (out.raised <==> Malformed(c))
            && (Malformed(c) ==> out.frames == [] && out.recorded == None)
            && (!Malformed(c) ==>
                  && out.recorded == Some(FromZeroSet)
                  && Zeroes(cfg, out.frames, Zero.Resolve(c.zeroTargets[..c.zeroTargetCount])))
  {
    ZeroOutputExactly(cfg, inputs[k].mailbox);
  }

  lemma ZeroOutputExactly(cfg: Config, c: Zero.OperatorCommand)
    requires Int16Offsets(c)
    ensures Malformed(c) ==> ZeroOutput(cfg, c) == Output([], true, None)
    ensures var out := ZeroOutput(cfg, c);
            !Malformed(c) ==>
              && !out.raised && out.recorded == Some(FromZeroSet)
              && Zeroes(cfg, out.frames, Zero.Resolve(c.zeroTargets[..c.zeroTargetCount]))
  {
    Zero.OffsetsExactly(c);
    if !Malformed(c) {
      var fold := Zero.Resolve(c.zeroTargets[..c.zeroTargetCount]);
      if c.zeroTargetCount == 0 { assert c.zeroTargets[..0] == [] && fold == map[]; }
      assert Zero.Offsets(c) == Ok(fold);
      forall id | id in fold ensures -32768 <= fold[id] <= 32767 { OffsetsAreInt16(c, id); }
      ZeroFramesMean(cfg, fold);
    }
  }

  /** The identifiers, in order, that name an actuator. */
  function Known(ids: seq<int>, actuators: set<int>): seq<int> {
    if ids == [] then []
    else if ids[0] in actuators then [ids[0]] + Known(ids[1..], actuators)
    else Known(ids[1..], actuators)
  }
}
