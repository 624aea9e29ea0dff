/** What a tick in NORMAL relays: exactly the valid entries of the policy command that name an actuator. */
module PolicyRelay {
  import opened Options
  import opened ControlModeFsm
  import opened ControlLoop
  import opened ControllerRuns

  /** `at` lists, in increasing order, the positions below both `num_targets` and 24 whose entries name a
      configured actuator, and no others. */
  ghost predicate Named(cfg: Config, p: PolicyCommand, at: seq<nat>) {
    && |p.targets| == 24
    && (forall n :: 0 <= n < |at| ==>
          at[n] < p.numTargets && at[n] < 24 && p.targets[at[n]].canId in Ids(cfg.actuators))
    && (forall m, n :: 0 <= m < n < |at| ==> at[m] < at[n])
    && (forall k: nat :: k < p.numTargets && k < 24 && p.targets[k].canId in Ids(cfg.actuators) ==> k in at)
  }

  /** The positions from `lo` on whose entries in `targets` name an actuator. */
  function Positions(cfg: Config, targets: seq<PolicyTarget>, lo: nat): (at: seq<nat>)
    requires lo <= |targets|
    ensures forall n :: 0 <= n < |at| ==> lo <= at[n] < |targets| && targets[at[n]].canId in Ids(cfg.actuators)
    ensures forall m, n :: 0 <= m < n < |at| ==> at[m] < at[n]
    ensures forall k :: lo <= k < |targets| && targets[k].canId in Ids(cfg.actuators) ==> k in at
    decreases |targets| - lo
  {
    if lo == |targets| then []
    else
      var rest := Positions(cfg, targets, lo + 1);
      if targets[lo].canId in Ids(cfg.actuators) then [lo] + rest else rest
  }

  lemma {:induction false} KnownAtPositions(cfg: Config, targets: seq<PolicyTarget>, lo: nat)
    requires lo <= |targets|
    ensures var at, known := Positions(cfg, targets, lo), KnownTargets(cfg, targets[lo..]);
            |known| == |at| && forall n :: 0 <= n < |at| ==> known[n] == targets[at[n]]
    decreases |targets| - lo
  {
    if lo < |targets| {
      KnownAtPositions(cfg, targets, lo + 1);
      KnownFrom(cfg, targets, lo);
      Prepended(targets, lo, KnownTargets(cfg, targets[lo + 1..]), Positions(cfg, targets, lo + 1));
    }
  }

  lemma Prepended(targets: seq<PolicyTarget>, k: nat, known: seq<PolicyTarget>, at: seq<nat>)
    requires k < |targets| && |known| == |at|
    requires forall n :: 0 <= n < |at| ==> at[n] < |targets| && known[n] == targets[at[n]]
    ensures forall n :: 0 <= n <= |at| ==>
              ([k] + at)[n] < |targets| && ([targets[k]] + known)[n] == targets[([k] + at)[n]]
  {
  }

  lemma KnownFrom(cfg: Config, targets: seq<PolicyTarget>, lo: nat)
    requires lo < |targets|
    ensures var rest := KnownTargets(cfg, targets[lo + 1..]);
            KnownTargets(cfg, targets[lo..])
            == if targets[lo].canId in Ids(cfg.actuators) then [targets[lo]] + rest else rest
  {
    assert targets[lo..][1..] == targets[lo + 1..] && targets[lo..][0] == targets[lo];
  }

  /** Main result. In NORMAL the frames of a tick are, in order, one for each named position, and each relays
      the entry there. The tick raises exactly if an entry cannot be packed, and stops before the first
      such entry. */
  lemma NormalRelaysExactly(cfg: Config, states: seq<Memory>, inputs: seq<Input>, k: nat) returns (at: seq<nat>)
    requires IsRun(cfg.enableDuration, states, inputs) && k < |inputs| && WellTyped(inputs[k])
    requires ModeAt(states, k) == Normal
    ensures Named(cfg, inputs[k].policy, at)
    ensures var out, p := TickOutput(cfg, states[k], inputs[k]), inputs[k].policy;
            && |out.frames| <= |at|
            && (forall n :: 0 <= n < |out.frames| ==> Relays(cfg, out.frames[n], p.targets[at[n]]))
            && (out.raised <==> |out.frames| < |at|)
            && (out.raised ==> Mit.MitPayload(cfg.mit, p.targets[at[|out.frames|]].command).Err?)
            && (!out.raised ==> out.recorded == Some(FromPolicy))
  {
    var p := inputs[k].policy;
    var targets := ValidTargets(p);
    at := Positions(cfg, targets, 0);
    KnownAtPositions(cfg, targets, 0);
    assert targets[0..] == targets;
    PolicyFramesMean(cfg, targets);
    PolicyRecords(cfg, targets);
  }

  /** Entries at or beyond `num_targets` change nothing that a tick emits, raises or records. */
  lemma LeftoversAreIdle(cfg: Config, m: Memory, i: Input, other: PolicyCommand)
    requires WellTyped(i) && |other.targets| == 24 && other.numTargets == i.policy.numTargets
    requires forall k: nat :: k < other.numTargets && k < 24 ==> other.targets[k] == i.policy.targets[k]
    ensures TickOutput(cfg, m, i.(policy := other)) == TickOutput(cfg, m, i)
    ensures Tick(cfg.enableDuration, m, i.(policy := other)) == Tick(cfg.enableDuration, m, i)
  {
    assert ValidTargets(other) == ValidTargets(i.policy);
  }
}
