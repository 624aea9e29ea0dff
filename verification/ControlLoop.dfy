/** One tick of the controller: the consume-once filter on the operator mailbox, the state machine,
    and the one output path of the resulting mode. Frames that are handed to the CAN transport
    are collected in order; what the transport does with them is not part of this model. */
module ControlLoop {
  import opened Bytes
  import opened Options
  import opened ControlModeFsm
  import opened SortedIds
  import opened Pacing
  import Mit = MitFrame
  import Zero = ZeroSet

  datatype CanFrame = CanFrame(canId: int, data: seq<byte>)

  const CMD_MIT_ENTER: byte := 0xC1
  const CMD_MIT_EXIT: byte := 0xC2
  const MAX_TARGETS := 24

  function Padded(opcode: byte): (data: seq<byte>)
    ensures |data| == 8
  {
    [opcode, 0, 0, 0, 0, 0, 0, 0]
  }

  /** `actuators` lists the configured identifiers in configuration order, each once; `degrees` is the
      product with 0.01 as the controller computes it. */
  datatype Config = Config(actuators: seq<int>, mit: Mit.Config, dampingKd: real,
                           enableDuration: real, imuRequest: Option<CanFrame>, degrees: Zero.Scaling)

  /** Distinct standard 11-bit identifiers, which is what the transport accepts. */
  predicate StandardIds(ids: seq<int>) {
    && (forall k :: 0 <= k < |ids| ==> 0 <= ids[k] <= 0x7FF)
    && (forall i, j :: 0 <= i < j < |ids| ==> ids[i] != ids[j])
  }

  datatype PolicyTarget = PolicyTarget(canId: int, command: Mit.Command)

  datatype PolicyCommand = PolicyCommand(numTargets: nat, targets: seq<PolicyTarget>)

  /** What the outside provides to one tick: the clock, and the contents of the two mailboxes. */
  datatype Input = Input(now: real, mailbox: Zero.OperatorCommand, policy: PolicyCommand)

  /** The fixed-size arrays and the 16-bit offsets of the two shared structures. */
  predicate WellTyped(i: Input) {
    Int16Offsets(i.mailbox) && |i.policy.targets| == MAX_TARGETS
  }

  predicate Int16Offsets(c: Zero.OperatorCommand) {
    && Zero.HasTargetArray(c)
    && forall k :: 0 <= k < |c.zeroTargets| ==> -32768 <= c.zeroTargets[k].offset <= 32767
  }

  datatype Source = NoSource | FromDisable | FromEnable | FromZeroSet | FromDamping | FromPolicy

  /** What one tick emits towards the actuators, whether it raised, and the output it recorded. */
  datatype Output = Output(frames: seq<CanFrame>, raised: bool, recorded: Option<Source>)

  // ----- The mailbox filter -----

  function MailboxCode(c: Zero.OperatorCommand): Code { ParseCode(c.command) }

  /** The mailbox holds a real command that is not the one consumed last. */
  predicate IsFresh(lastConsumed: Option<nat>, c: Zero.OperatorCommand) {
    MailboxCode(c) != NoCommand && lastConsumed != Some(c.timestampNs)
  }

  /** An `OperatorCommandC()` with everything zero but the timestamp. */
  function Released(timestampNs: nat): (c: Zero.OperatorCommand)
    ensures Zero.HasTargetArray(c)
  {
    Zero.OperatorCommand(timestampNs, 0, 0, 0, 0, seq(Zero.MAX_ROBOT_ACTUATORS, _ => Zero.ZeroTarget(0, 0)))
  }

  function Filtered(lastConsumed: Option<nat>, c: Zero.OperatorCommand): Zero.OperatorCommand {
    if MailboxCode(c) == NoCommand || IsFresh(lastConsumed, c) then c else Released(c.timestampNs)
  }

  function Consumed(lastConsumed: Option<nat>, c: Zero.OperatorCommand): Option<nat> {
    if IsFresh(lastConsumed, c) then Some(c.timestampNs) else lastConsumed
  }

  function Ids(actuators: seq<int>): set<int> {
    set id | id in actuators
  }

  lemma NoneSorted(actuators: seq<int>)
    ensures Sorted(Ids(actuators)) == [] <==> actuators == []
  {
    if actuators != [] { assert actuators[0] in Ids(actuators); }
    if Sorted(Ids(actuators)) != [] { assert Sorted(Ids(actuators))[0] in Ids(actuators); }
  }

  // ----- The output paths -----

  function ToAll(actuators: seq<int>, data: seq<byte>): (frames: seq<CanFrame>)
    ensures |frames| == |actuators|
    ensures forall k :: 0 <= k < |frames| ==> frames[k] == CanFrame(actuators[k], data)
  {
    seq(|actuators|, k requires 0 <= k < |actuators| => CanFrame(actuators[k], data))
  }

  lemma NextToAll(actuators: seq<int>, data: seq<byte>, k: nat)
    requires k < |actuators|
    ensures ToAll(actuators, data)[..k + 1] == ToAll(actuators, data)[..k] + [CanFrame(actuators[k], data)]
  {
  }

  /** The zero-set frames to the known ones of `ids`, in that order. */
  function ZeroFrames(cfg: Config, ids: seq<int>, offsets: map<int, int>): (frames: seq<CanFrame>)
    requires forall id :: id in offsets ==> -32768 <= offsets[id] <= 32767
  {
    if ids == [] then []
    else
      var id := ids[0];
      var rest := ZeroFrames(cfg, ids[1..], offsets);
      if id !in Ids(cfg.actuators) then rest
      else
        var offset := if id in offsets then offsets[id] else 0;
        Zero.OffsetSurvives(offset, cfg.degrees(offset));
        [CanFrame(id, Zero.SetZeroPayload(cfg.degrees(offset)).value)] + rest
  }

  lemma OffsetsAreInt16(c: Zero.OperatorCommand, id: int)
    requires Int16Offsets(c) && Zero.Offsets(c).Ok? && id in Zero.Offsets(c).value
    ensures -32768 <= Zero.Offsets(c).value[id] <= 32767
  {
    Zero.ResolveIsLastWins(c.zeroTargets[..c.zeroTargetCount], id);
  }

  ghost function ZeroOutput(cfg: Config, c: Zero.OperatorCommand): Output
    requires Int16Offsets(c)
  {
    var r := Zero.Offsets(c);
    if r.Err? then Output([], true, None)
    else
      assert forall id :: id in r.value ==> -32768 <= r.value[id] <= 32767 by {
        forall id | id in r.value ensures -32768 <= r.value[id] <= 32767 { OffsetsAreInt16(c, id); }
      }
      var ids := if r.value != map[] then Sorted(r.value.Keys) else Sorted(Ids(cfg.actuators));
      Output(ZeroFrames(cfg, ids, r.value), false, Some(FromZeroSet))
  }

  function DampingCommand(cfg: Config): Mit.Command {
    Mit.Command(0.0, 0.0, 0.0, cfg.dampingKd, 0.0)
  }

  ghost function DampingOutput(cfg: Config): Output {
    var payload := Mit.MitPayload(cfg.mit, DampingCommand(cfg));
    if payload.Ok? then Output(ToAll(Sorted(Ids(cfg.actuators)), payload.value), false, Some(FromDamping))
    else Output([], cfg.actuators != [], Some(FromDamping))
  }

  /** The policy frames of `targets`, up to the first known target that cannot be packed. */
  function PolicyOutput(cfg: Config, targets: seq<PolicyTarget>): Output
    decreases |targets|
  {
    if targets == [] then Output([], false, Some(FromPolicy))
    else
      var t := targets[0];
      if t.canId !in Ids(cfg.actuators) then PolicyOutput(cfg, targets[1..])
      else
        var payload := Mit.MitPayload(cfg.mit, t.command);
        if payload.Err? then Output([], true, None)
        else
          var rest := PolicyOutput(cfg, targets[1..]);
          rest.(frames := [CanFrame(t.canId, payload.value)] + rest.frames)
  }

  function ValidTargets(p: PolicyCommand): seq<PolicyTarget> {
    p.targets[..if p.numTargets < |p.targets| then p.numTargets else |p.targets|]
  }

  ghost function ModeOutput(cfg: Config, mode: Mode, op: Zero.OperatorCommand, policy: PolicyCommand): Output
    requires Int16Offsets(op)
  {
    match mode
    case Estop => Output(ToAll(cfg.actuators, Padded(CMD_MIT_EXIT)), false, Some(FromDisable))
    case Disabled => Output(ToAll(cfg.actuators, Padded(CMD_MIT_EXIT)), false, Some(FromDisable))
    case Enabling => Output(ToAll(cfg.actuators, Padded(CMD_MIT_ENTER)), false, Some(FromEnable))
    case ZeroSetting => ZeroOutput(cfg, op)
    case Damping => DampingOutput(cfg)
    case Normal => PolicyOutput(cfg, ValidTargets(policy))
    case Unknown => Output([], true, None)
  }

  // ----- One tick -----

  /** The part of the controller that one tick hands to the next. */
  datatype Memory = Memory(fsm: State, lastConsumed: Option<nat>)

  /** The command code that the state machine gets to see at a tick. */
  function TakenCode(m: Memory, i: Input): Code {
    if IsFresh(m.lastConsumed, i.mailbox) then MailboxCode(i.mailbox) else NoCommand
  }

  function Tick(enableDuration: real, m: Memory, i: Input): Memory {
    Memory(Next(m.fsm, TakenCode(m, i), i.now, enableDuration), Consumed(m.lastConsumed, i.mailbox))
  }

  ghost function TickOutput(cfg: Config, m: Memory, i: Input): Output
    requires WellTyped(i)
  {
    ModeOutput(cfg, Tick(cfg.enableDuration, m, i).fsm.mode, Filtered(m.lastConsumed, i.mailbox), i.policy)
  }

  /** A run lists the memory before each tick, and after the last one. */
  ghost predicate IsRun(enableDuration: real, states: seq<Memory>, inputs: seq<Input>) {
    && |states| == |inputs| + 1
    && forall k :: 0 <= k < |inputs| ==> states[k + 1] == Tick(enableDuration, states[k], inputs[k])
  }

  ghost predicate AllWellTyped(inputs: seq<Input>) {
    forall k :: 0 <= k < |inputs| ==> WellTyped(inputs[k])
  }

  /** The frames of a tick: the request to the IMU, if every tick makes one, and the output. */
  function FramesOf(cfg: Config, out: Output): seq<CanFrame> {
    (if cfg.imuRequest.Some? then [cfg.imuRequest.value] else []) + out.frames
  }

  /** The frames of consecutive ticks with these outputs. */
  function Emitted(cfg: Config, outs: seq<Output>): seq<CanFrame>
    decreases |outs|
  {
    if outs == [] then [] else Emitted(cfg, outs[..|outs| - 1]) + FramesOf(cfg, outs[|outs| - 1])
  }

  ghost predicate PutsOut(cfg: Config, states: seq<Memory>, inputs: seq<Input>, outs: seq<Output>, k: nat)
    requires k < |states| && k < |inputs| && k < |outs| && AllWellTyped(inputs)
  {
    outs[k] == TickOutput(cfg, states[k], inputs[k])
  }

  /** `outs` lists the outputs of the ticks that have run. None raised, except the last if not `ok`. */
  ghost predicate Ran(cfg: Config, states: seq<Memory>, inputs: seq<Input>, outs: seq<Output>, ok: bool)
    requires AllWellTyped(inputs)
  {
    && |outs| <= |inputs| && |states| == |outs| + 1 && (ok || outs != [])
    && IsRun(cfg.enableDuration, states, inputs[..|outs|])
    && (forall k: nat :: k < |outs| ==> PutsOut(cfg, states, inputs, outs, k))
    && (forall k :: 0 <= k < |outs| ==> outs[k].raised == (k == |outs| - 1 && !ok))
  }

  lemma OneMoreTick(cfg: Config, states: seq<Memory>, inputs: seq<Input>, outs: seq<Output>, m: Memory, out: Output)
    requires AllWellTyped(inputs) && Ran(cfg, states, inputs, outs, true) && |outs| < |inputs|
    requires m == Tick(cfg.enableDuration, states[|outs|], inputs[|outs|])
    requires out == TickOutput(cfg, states[|outs|], inputs[|outs|])
    ensures Ran(cfg, states + [m], inputs, outs + [out], !out.raised)
    ensures Emitted(cfg, outs + [out]) == Emitted(cfg, outs) + FramesOf(cfg, out)
  {
    var n := |outs|;
    var states', outs' := states + [m], outs + [out];
    assert inputs[..n + 1][..n] == inputs[..n] && outs'[..n] == outs;
    forall k: nat | k < |outs'| ensures PutsOut(cfg, states', inputs, outs', k) {
      assert states'[k] == states[k];
      if k < n { assert PutsOut(cfg, states, inputs, outs, k) && outs'[k] == outs[k]; }
    }
  }

  /** `wait` is the sleep that the schedule calls for before tick `k`. */
  ghost predicate SleptAt(t0: real, period: real, timings: seq<Timing>, k: nat, wait: real)
    requires k < |timings|
  {
    wait == Wait(Scheduled(t0, period, timings, k), timings[k].arrive)
  }

  ghost predicate Slept(t0: real, period: real, timings: seq<Timing>, waits: seq<real>) {
    && |waits| <= |timings|
    && forall k: nat :: k < |waits| ==> SleptAt(t0, period, timings, k, waits[k])
  }

  lemma OneMoreSleep(t0: real, period: real, timings: seq<Timing>, waits: seq<real>, wait: real)
    requires Slept(t0, period, timings, waits) && |waits| < |timings|
    requires SleptAt(t0, period, timings, |waits|, wait)
    ensures Slept(t0, period, timings, waits + [wait])
  {
    var more := waits + [wait];
    forall k: nat | k < |more| ensures SleptAt(t0, period, timings, k, more[k]) {
      if k < |waits| {
        assert SleptAt(t0, period, timings, k, waits[k]);
        assert more[k] == waits[k];
      }
    }
  }

  class RobotController {
    const cfg: Config
    const fsm: Fsm
    var lastConsumed: Option<nat>
    var lastIgnored: Option<nat>
    var lastOutputSource: Source
    var sent: seq<CanFrame>

    constructor (cfg: Config, now: real)
      requires cfg.enableDuration >= 0.0 && StandardIds(cfg.actuators)
      ensures this.cfg == cfg && fresh(fsm) && Valid()
      ensures Current() == Memory(State(Disabled, now), None) && sent == []
    {
      this.cfg := cfg;
      fsm := new Fsm(cfg.enableDuration, now);
      lastConsumed, lastIgnored := None, None;
      lastOutputSource := NoSource;
      sent := [];
    }

    predicate Valid() {
      fsm.enableDuration == cfg.enableDuration && StandardIds(cfg.actuators)
    }

    function Current(): Memory
      reads this, fsm
    {
      Memory(fsm.Current(), lastConsumed)
    }

    method Send(frame: CanFrame)
      modifies this`sent
      ensures sent == old(sent) + [frame]
    {
      sent := sent + [frame];
    }

    /** `run`, for as many ticks as there are inputs, or until a tick raises. If `timings` lists one
        more round, the loop is told to stop while it sleeps in that round, and otherwise between
        two rounds. It returns how long it slept in each round, and what it emitted is what
        the ticks emit, in order. */
    method Run(t0: real, period: real, timings: seq<Timing>, inputs: seq<Input>)
      returns (waits: seq<real>, ok: bool, ghost states: seq<Memory>, ghost outs: seq<Output>)
      requires Valid() && |inputs| <= |timings| <= |inputs| + 1 && AllWellTyped(inputs)
      modifies this, fsm
      ensures Valid() && Ran(cfg, states, inputs, outs, ok) && (ok ==> |outs| == |inputs|)
      ensures Slept(t0, period, timings, waits) && |waits| == if ok then |timings| else |outs|
      ensures states[0] == old(Current()) && states[|outs|] == Current()
      ensures sent == old(sent) + Emitted(cfg, outs)
    {
      var nextT := t0;
      waits, ok, states, outs := [], true, [Current()], [];
      for k := 0 to |inputs|
        invariant Valid() && ok && |waits| == |outs| == k && nextT == Scheduled(t0, period, timings, k)
        invariant Slept(t0, period, timings, waits) && Ran(cfg, states, inputs, outs, true)
        invariant states[0] == old(Current()) && states[k] == Current()
        invariant sent == old(sent) + Emitted(cfg, outs)
      {
        waits := Sleep(t0, period, timings, waits, nextT);
        ok, states, outs := LoggedLoop(inputs, k, states, outs, old(sent));
        if !ok {
          return;
        }
        nextT := Advance(t0, period, timings, k, nextT);
      }
      if |inputs| < |timings| {
        waits := Sleep(t0, period, timings, waits, nextT);
      }
    }

    /** The sleep at the head of a round. */
    method Sleep(t0: real, period: real, timings: seq<Timing>, waits: seq<real>, nextT: real) returns (more: seq<real>)
      requires Slept(t0, period, timings, waits) && |waits| < |timings|
      requires nextT == Scheduled(t0, period, timings, |waits|)
      ensures Slept(t0, period, timings, more) && |more| == |waits| + 1
    {
      var arrive := timings[|waits|].arrive;
      var wait := if arrive < nextT then nextT - arrive else 0.0;
      OneMoreSleep(t0, period, timings, waits, wait);
      more := waits + [wait];
    }

    /** The next start time, at the end of a round. */
    method Advance(t0: real, period: real, timings: seq<Timing>, k: nat, thisT: real) returns (nextT: real)
      requires k < |timings| && thisT == Scheduled(t0, period, timings, k)
      ensures nextT == Scheduled(t0, period, timings, k + 1)
    {
      NextScheduled(t0, period, timings, k);
      nextT := thisT + period;
      if nextT < timings[k].finish {
        nextT := timings[k].finish + period;
      }
    }

    /** `loop`, together with the record of the run that the proof keeps. */
    method LoggedLoop(inputs: seq<Input>, k: nat, ghost states: seq<Memory>, ghost outs: seq<Output>,
                      ghost before: seq<CanFrame>)
      returns (ok: bool, ghost states': seq<Memory>, ghost outs': seq<Output>)
      requires Valid() && AllWellTyped(inputs) && Ran(cfg, states, inputs, outs, true) && k == |outs| < |inputs|
      requires states[k] == Current() && sent == before + Emitted(cfg, outs)
      modifies this, fsm
      ensures Valid() && Ran(cfg, states', inputs, outs', ok) && |outs'| == k + 1
      ensures states'[0] == states[0] && states'[k + 1] == Current() && sent == before + Emitted(cfg, outs')
    {
      ghost var out := TickOutput(cfg, Current(), inputs[k]);
      ok := Loop(inputs[k]);
      OneMoreTick(cfg, states, inputs, outs, Current(), out);
      states', outs' := states + [Current()], outs + [out];
    }

    /** `loop`: true if the tick completed, false if it raised. */
    method Loop(i: Input) returns (ok: bool)
      requires Valid() && WellTyped(i)
      modifies this, fsm
      ensures Valid() && Current() == Tick(cfg.enableDuration, old(Current()), i)
      ensures var out := TickOutput(cfg, old(Current()), i);
              && ok == !out.raised
              && sent == old(sent) + FramesOf(cfg, out)
              && lastOutputSource == if out.recorded.Some? then out.recorded.value else old(lastOutputSource)
    {
      if cfg.imuRequest.Some? {
        Send(cfg.imuRequest.value);
      }
      var op := ConsumeOperatorCommand(i.mailbox);
      var mode := fsm.Update(MailboxCode(op), i.now);
      ok := Dispatch(mode, op, i.policy);
    }

    /** Exactly one output path, chosen by the mode. */
    method Dispatch(mode: Mode, op: Zero.OperatorCommand, policy: PolicyCommand) returns (ok: bool)
      requires Int16Offsets(op)
      modifies this`sent, this`lastOutputSource
      ensures var out := ModeOutput(cfg, mode, op, policy);
              && ok == !out.raised && sent == old(sent) + out.frames
              && lastOutputSource == if out.recorded.Some? then out.recorded.value else old(lastOutputSource)
    {
      match mode {
        case Estop | Disabled =>
          lastOutputSource := FromDisable;
          SendToAll(Padded(CMD_MIT_EXIT));
          ok := true;
        case Enabling =>
          lastOutputSource := FromEnable;
          SendToAll(Padded(CMD_MIT_ENTER));
          ok := true;
        case ZeroSetting =>
          ok := SendZeroSetAll(op);
        case Damping =>
          ok := SendDampingAll();
        case Normal =>
          ok := SendPolicyCommand(policy);
        case Unknown =>
          ok := false;
      }
    }

    method ConsumeOperatorCommand(c: Zero.OperatorCommand) returns (op: Zero.OperatorCommand)
      modifies this`lastConsumed, this`lastIgnored
      ensures op == Filtered(old(lastConsumed), c) && lastConsumed == Consumed(old(lastConsumed), c)
    {
      if ParseCode(c.command) == NoCommand {
        return c;
      }
      if lastConsumed == Some(c.timestampNs) {
        lastIgnored := Some(c.timestampNs);
        return Released(c.timestampNs);
      }
      lastConsumed := Some(c.timestampNs);
      lastIgnored := None;
      op := c;
    }

    method SendToAll(data: seq<byte>)
      modifies this`sent
      ensures sent == old(sent) + ToAll(cfg.actuators, data)
    {
      for k := 0 to |cfg.actuators|
        invariant sent == old(sent) + ToAll(cfg.actuators, data)[..k]
      {
        Send(CanFrame(cfg.actuators[k], data));
      }
    }

    method SendZeroSetAll(c: Zero.OperatorCommand) returns (ok: bool)
      requires Int16Offsets(c)
      modifies this`sent, this`lastOutputSource
      ensures var out := ZeroOutput(cfg, c);
              && ok == !out.raised && sent == old(sent) + out.frames
              && lastOutputSource == if out.recorded.Some? then out.recorded.value else old(lastOutputSource)
    {
      var r := Zero.ZeroSetOffsetsByCanId(c);
      if r.Err? {
        return false;
      }
      var offsets := r.value;
      forall id | id in offsets ensures -32768 <= offsets[id] <= 32767 { OffsetsAreInt16(c, id); }
      var ids;
      if offsets != map[] { ids := SortIds(offsets.Keys); } else { ids := SortIds(Ids(cfg.actuators)); }
      lastOutputSource := FromZeroSet;
      SendZeroFrames(ids, offsets);
      ok := true;
    }

    method SendZeroFrames(ids: seq<int>, offsets: map<int, int>)
      requires forall id :: id in offsets ==> -32768 <= offsets[id] <= 32767
      modifies this`sent
      ensures sent == old(sent) + ZeroFrames(cfg, ids, offsets)
    {
      for k := 0 to |ids|
        invariant old(sent) + ZeroFrames(cfg, ids, offsets) == sent + ZeroFrames(cfg, ids[k..], offsets)
      {
        var id := ids[k];
        assert ids[k..][1..] == ids[k + 1..];
        if id in Ids(cfg.actuators) {
          var offset := if id in offsets then offsets[id] else 0;
          Zero.OffsetSurvives(offset, cfg.degrees(offset));
          var payload := Zero.PackMitSetZeroPayload(cfg.degrees(offset));
          Send(CanFrame(id, payload.value));
        }
      }
    }

    method SendDampingAll() returns (ok: bool)
      modifies this`sent, this`lastOutputSource
      ensures var out := DampingOutput(cfg);
              && ok == !out.raised && sent == old(sent) + out.frames
              && lastOutputSource == if out.recorded.Some? then out.recorded.value else old(lastOutputSource)
    {
      lastOutputSource := FromDamping;
      var ids := SortIds(Ids(cfg.actuators));
      NoneSorted(cfg.actuators);
      ok := SendDampingFrames(ids);
    }

    method SendDampingFrames(ids: seq<int>) returns (ok: bool)
      modifies this`sent
      ensures var payload := Mit.MitPayload(cfg.mit, DampingCommand(cfg));
              && (ok <==> payload.Ok? || ids == [])
              && sent == old(sent) + if payload.Ok? then ToAll(ids, payload.value) else []
    {
      ghost var payload := Mit.MitPayload(cfg.mit, DampingCommand(cfg));
      for k := 0 to |ids|
        invariant k > 0 ==> payload.Ok?
        invariant sent == old(sent) + if payload.Ok? then ToAll(ids, payload.value)[..k] else []
      {
        var data := Mit.PackMitPayload(cfg.mit, DampingCommand(cfg));
        if data.Err? {
          return false;
        }
        NextToAll(ids, data.value, k);
        Send(CanFrame(ids[k], data.value));
      }
      ok := true;
    }

    method SendPolicyCommand(policy: PolicyCommand) returns (ok: bool)
      modifies this`sent, this`lastOutputSource
      ensures var out := PolicyOutput(cfg, ValidTargets(policy));
              && ok == !out.raised && sent == old(sent) + out.frames
              && lastOutputSource == if out.recorded.Some? then out.recorded.value else old(lastOutputSource)
    {
      var targets := ValidTargets(policy);
      ghost var all := PolicyOutput(cfg, targets);
      for k := 0 to |targets|
        invariant var rest := PolicyOutput(cfg, targets[k..]);
                  && old(sent) + all.frames == sent + rest.frames
                  && all.raised == rest.raised && all.recorded == rest.recorded
        invariant lastOutputSource == old(lastOutputSource)
      {
        assert targets[k..][1..] == targets[k + 1..];
        var t := targets[k];
        if t.canId in Ids(cfg.actuators) {
          var payload := Mit.PackMitPayload(cfg.mit, t.command);
          if payload.Err? {
            return false;
          }
          Send(CanFrame(t.canId, payload.value));
        }
      }
      lastOutputSource := FromPolicy;
      ok := true;
    }
  }
}
