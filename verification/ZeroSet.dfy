/** The zero-offset pipeline: the operator command that carries up to 24 (CAN ID, offset) pairs,
    the controller's resolution of those pairs, the 0.01-degree payload sent to an actuator, and
    the acknowledgement that carries the offset back. */
module ZeroSet {
  import opened Bytes
  import opened Options
  import opened Quantize

  const MAX_ROBOT_ACTUATORS := 24
  const OPERATOR_ZERO_TARGET_MAGIC := 0x5A45524F
  const CMD_MIT_SET_ZERO: byte := 0xC3

  datatype Failure = ValueError | RuntimeError

  datatype ZeroTarget = ZeroTarget(canId: int, offset: int)

  datatype OperatorCommand = OperatorCommand(timestampNs: nat, command: nat, targetMask: nat,
                                             zeroTargetCount: nat, zeroTargetMagic: nat,
                                             zeroTargets: seq<ZeroTarget>)

  /** The fixed array that the command structure carries. */
  predicate HasTargetArray(c: OperatorCommand) {
    |c.zeroTargets| == MAX_ROBOT_ACTUATORS
  }

  predicate TargetValid(t: ZeroTarget) {
    0 <= t.canId <= 0x1FFF_FFFF && -32768 <= t.offset <= 32767
  }

  predicate TargetsValid(targets: seq<ZeroTarget>) {
    |targets| <= MAX_ROBOT_ACTUATORS && forall k :: 0 <= k < |targets| ==> TargetValid(targets[k])
  }

  /** `c` carries `targets` and nothing else in its target array. */
  predicate Carries(c: OperatorCommand, targets: seq<ZeroTarget>) {
    && HasTargetArray(c) && |targets| <= MAX_ROBOT_ACTUATORS
    && c.zeroTargetCount == |targets|
    && c.zeroTargetMagic == (if targets == [] then 0 else OPERATOR_ZERO_TARGET_MAGIC)
    && c.zeroTargets[..|targets|] == targets
    && forall k :: |targets| <= k < MAX_ROBOT_ACTUATORS ==> c.zeroTargets[k] == ZeroTarget(0, 0)
  }

  /** `build_operator_command`. The timestamp is the clock reading the code takes. */
  method BuildOperatorCommand(code: int, targetMask: int, targets: seq<ZeroTarget>, timestampNs: nat)
    returns (r: Result<OperatorCommand, Failure>)
    ensures r.Ok? <==> TargetsValid(targets)
    ensures r.Ok? <==> |targets| <= 24 && forall k :: 0 <= k < |targets| ==>
                         0 <= targets[k].canId <= 0x1FFF_FFFF && -32768 <= targets[k].offset <= 32767
    ensures r.Err? ==> r.error == ValueError
    ensures r.Ok? ==>
              && Carries(r.value, targets)
              && r.value.timestampNs == timestampNs
              && r.value.command == code % 0x1_0000_0000 && r.value.targetMask == targetMask % 0x1_0000_0000
  {
    if |targets| > MAX_ROBOT_ACTUATORS {
      return Err(ValueError);
    }
    var slots := new ZeroTarget[MAX_ROBOT_ACTUATORS](_ => ZeroTarget(0, 0));
    for k := 0 to |targets|
      invariant forall i :: 0 <= i < k ==> TargetValid(targets[i]) && slots[i] == targets[i]
      invariant forall i :: k <= i < MAX_ROBOT_ACTUATORS ==> slots[i] == ZeroTarget(0, 0)
    {
      if !(0 <= targets[k].canId <= 0x1FFF_FFFF) {
        return Err(ValueError);
      }
      if !(-32768 <= targets[k].offset <= 32767) {
        return Err(ValueError);
      }
      slots[k] := targets[k];
    }
    r := Ok(OperatorCommand(timestampNs, code % 0x1_0000_0000, targetMask % 0x1_0000_0000, |targets|,
                            if targets != [] then OPERATOR_ZERO_TARGET_MAGIC else 0, slots[..]));
  }

  // ----- Resolution -----

  /** The controller's dictionary after a run through `targets`: ID 0 is skipped, and a later
      pair overrides an earlier one with the same ID. */
  function Resolve(targets: seq<ZeroTarget>): (offsets: map<int, int>)
    decreases |targets|
  {
    if targets == [] then map[]
    else
      var last := targets[|targets| - 1];
      var before := Resolve(targets[..|targets| - 1]);
      if last.canId == 0 then before else before[last.canId := last.offset]
  }

  /** No pair after position `k` names `id`. */
  predicate LastNaming(targets: seq<ZeroTarget>, id: int, k: nat) {
    k < |targets| && targets[k].canId == id && forall j :: k < j < |targets| ==> targets[j].canId != id
  }

  /** An ID is resolved exactly if it is not 0 and some pair names it; its offset is that of the
      last pair that does. */
  lemma {:induction false} ResolveIsLastWins(targets: seq<ZeroTarget>, id: int)
    ensures id in Resolve(targets) <==> id != 0 && exists k: nat :: k < |targets| && targets[k].canId == id
    ensures id in Resolve(targets) ==>
              exists k: nat :: LastNaming(targets, id, k) && Resolve(targets)[id] == targets[k].offset
    decreases |targets|
  {
    if targets != [] {
      var n := |targets| - 1;
      var before := targets[..n];
      ResolveIsLastWins(before, id);
      if targets[n].canId == id {
        assert LastNaming(targets, id, n);
      } else if id in Resolve(before) {
        var k: nat :| LastNaming(before, id, k) && Resolve(before)[id] == before[k].offset;
        assert LastNaming(targets, id, k);
      }
    }
  }

  /** What the controller makes of any command, well-formed or not. */
  function Offsets(c: OperatorCommand): Result<map<int, int>, Failure>
    requires HasTargetArray(c)
  {
    if c.zeroTargetCount == 0 then Ok(map[])
    else if c.zeroTargetMagic != OPERATOR_ZERO_TARGET_MAGIC then Err(RuntimeError)
    else if c.zeroTargetCount > |c.zeroTargets| then Err(RuntimeError)
    else Ok(Resolve(c.zeroTargets[..c.zeroTargetCount]))
  }

  /** `_zero_set_offsets_by_can_id`, which fills a dictionary in a loop. */
  method ZeroSetOffsetsByCanId(c: OperatorCommand) returns (r: Result<map<int, int>, Failure>)
    requires HasTargetArray(c)
    ensures r == Offsets(c)
  {
    var count := c.zeroTargetCount;
    if count == 0 {
      return Ok(map[]);
    }
    if c.zeroTargetMagic != OPERATOR_ZERO_TARGET_MAGIC {
      return Err(RuntimeError);
    }
    if count > |c.zeroTargets| {
      return Err(RuntimeError);
    }
    var offsets: map<int, int> := map[];
    for index := 0 to count
      invariant offsets == Resolve(c.zeroTargets[..index])
    {
      var target := c.zeroTargets[index];
      assert c.zeroTargets[..index + 1][..index] == c.zeroTargets[..index];
      if target.canId != 0 {
        offsets := offsets[target.canId := target.offset];
      }
    }
    r := Ok(offsets);
  }

  /** Main result: the controller rejects a command exactly if it announces pairs under another magic than
      0x5A45524F, or more than 24 of them; otherwise it resolves the pairs announced. */
  lemma OffsetsExactly(c: OperatorCommand)
    requires |c.zeroTargets| == 24
    ensures Offsets(c).Err? <==> c.zeroTargetCount > 0 && (c.zeroTargetMagic != 0x5A45524F || c.zeroTargetCount > 24)
    ensures Offsets(c).Ok? && c.zeroTargetCount > 0 ==> Offsets(c).value == Resolve(c.zeroTargets[..c.zeroTargetCount])
    ensures c.zeroTargetCount == 0 ==> Offsets(c) == Ok(map[])
  {
  }

  // ----- The payload and its acknowledgement -----

  /** `_pack_mit_set_zero_payload`: hundredths of a degree, two's complement, least significant
      byte first. */
  function SetZeroPayload(offsetDeg: real): (r: Result<seq<byte>, Failure>)
    ensures r.Ok? ==> |r.value| == 8
  {
    var raw := RoundHalfAway(offsetDeg * 100.0);
    if !(-32768 <= raw <= 32767) then Err(ValueError)
    else Ok([CMD_MIT_SET_ZERO, 0, 0, 0, 0, 0] + EncodeLE(raw % 0x1_0000, 2))
  }

  method PackMitSetZeroPayload(offsetDeg: real) returns (r: Result<seq<byte>, Failure>)
    ensures r == SetZeroPayload(offsetDeg)
  {
    var raw := RoundHalfAway(offsetDeg * 100.0);
    if !(-32768 <= raw <= 32767) {
      return Err(ValueError);
    }
    var data := new byte[8](_ => 0);
    data[0] := CMD_MIT_SET_ZERO;
    var offsetBytes := EncodeLE(raw % 0x1_0000, 2);
    data[6] := offsetBytes[0];
    data[7] := offsetBytes[1];
    assert data[..] == [CMD_MIT_SET_ZERO, 0, 0, 0, 0, 0] + offsetBytes;
    r := Ok(data[..]);
  }

  /** `struct.unpack("<h", ...)` of the last two bytes, as the acknowledgement is decoded. */
  function AckOffset(data: seq<byte>): int
    requires |data| == 8
  {
    var u := DecodeLE(data[6..8]);
    if u >= 0x8000 then u - 0x1_0000 else u
  }

  /** The frame is the opcode 0xC3, five zeros, and the rounded count as 16 bits of two's complement, least
      significant byte first. */
  lemma ZeroBytes(offsetDeg: real)
    requires SetZeroPayload(offsetDeg).Ok?
    ensures var d := SetZeroPayload(offsetDeg).value;
            && d[..6] == [0xC3, 0, 0, 0, 0, 0]
            && (256 * d[7] as int + d[6] - RoundHalfAway(offsetDeg * 100.0)) % 0x1_0000 == 0
  {
    var low := RoundHalfAway(offsetDeg * 100.0) % 0x1_0000;
    var word := EncodeLE(low, 2);
    assert word == [low % 256] + EncodeLE(low / 256, 1) && EncodeLE(low / 256, 1) == [low / 256 % 256];
    assert low == 256 * (low / 256) + low % 256;
  }

  lemma Int16RoundTrip(offset: int)
    requires -32768 <= offset <= 32767
    ensures AckOffset([CMD_MIT_SET_ZERO, 0, 0, 0, 0, 0] + EncodeLE(offset % 0x1_0000, 2)) == offset
  {
    Widths();
    DecodeEncode(offset % 0x1_0000, 2);
    assert ([CMD_MIT_SET_ZERO, 0, 0, 0, 0, 0] + EncodeLE(offset % 0x1_0000, 2))[6..8] == EncodeLE(offset % 0x1_0000, 2);
  }

  /** Every int16 offset survives the scaling to degrees, the payload and the acknowledgement,
      however the floating-point products are rounded, as long as the count that reaches the
      packer is less than one half away from the offset. */
  lemma OffsetSurvives(offset: int, offsetDeg: real)
    requires -32768 <= offset <= 32767
    requires offset as real - 0.5 < offsetDeg * 100.0 < offset as real + 0.5
    ensures SetZeroPayload(offsetDeg).Ok? && AckOffset(SetZeroPayload(offsetDeg).value) == offset
  {
    RoundsToNearest(offsetDeg * 100.0, offset);
    Int16RoundTrip(offset);
  }

  /** The packer refuses exactly the angles whose rounded count does not fit; the ones it
      accepts come back within half a hundredth of a degree. */
  lemma PayloadFaithful(offsetDeg: real)
    ensures SetZeroPayload(offsetDeg).Ok? <==> -32768.5 < offsetDeg * 100.0 < 32767.5
    ensures SetZeroPayload(offsetDeg).Ok? ==>
              -0.5 <= AckOffset(SetZeroPayload(offsetDeg).value) as real - offsetDeg * 100.0 <= 0.5
  {
    var x := offsetDeg * 100.0;
    RoundErrorAtMostHalf(x);
    if -32768.5 < x < 32767.5 {
      RoundMonotone(-32768.5 , x);
      Int16RoundTrip(RoundHalfAway(x));
    }
  }

  // ----- The whole pipeline -----

  /** 100 times the angle is less than half a count away from every int16 offset. */
  ghost predicate ScalesWell(f: int -> real) {
    forall n :: -32768 <= n <= 32767 ==> n as real - 0.5 < f(n) * 100.0 < n as real + 0.5
  }

  /** The product of an offset with 0.01 as it comes out of floating point: the exact product, or
      anything else that is near enough. */
  type Scaling = f: int -> real | ScalesWell(f) ghost witness ((n: int) => n as real * 0.01)

  /** A built command is never rejected by the controller: it resolves to the last-wins fold of
      its pairs, and each resolved offset reaches its actuator and comes back unchanged, whatever
      the rounding of the scaling, as long as it is near enough. */
  lemma PipelineFaithful(c: OperatorCommand, targets: seq<ZeroTarget>, degrees: Scaling, id: int)
    requires TargetsValid(targets) && Carries(c, targets)
    ensures Offsets(c) == Ok(Resolve(targets))
    ensures id in Resolve(targets) ==>
              var payload := SetZeroPayload(degrees(Resolve(targets)[id]));
              payload.Ok? && AckOffset(payload.value) == Resolve(targets)[id]
  {
    if id in Resolve(targets) {
      ResolveIsLastWins(targets, id);
      var k: nat :| LastNaming(targets, id, k) && Resolve(targets)[id] == targets[k].offset;
      assert TargetValid(targets[k]);
      OffsetSurvives(targets[k].offset, degrees(targets[k].offset));
    }
  }
}
