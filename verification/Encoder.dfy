/** 14-bit encoder counts: wrapping, conversion to radians, shortest differences and the offset
    that makes the current position read as a desired angle. Half a turn is any positive real
    `pi`; nothing below depends on which. */
module Encoder {
  import opened Bytes
  import opened Reals
  import opened Quantize

  const ENC_MOD := 16384
  const ENC_HALF := 8192

  const CMD_WRITE_ENCODER_OFFSET: byte := 0x91

  /** `x & 0x3FFF`, on Python's unbounded two's-complement integers. */
  function WrapU14(x: int): (r: int)
    ensures 0 <= r < 16384
  {
    x % ENC_MOD
  }

  function ShortestDelta(curr: int, prev: int): int {
    var delta := WrapU14(curr) - WrapU14(prev);
    if delta > ENC_HALF then delta - ENC_MOD
    else if delta < -ENC_HALF then delta + ENC_MOD
    else delta
  }

  function U14CountToRad(count: int, pi: real): real {
    WrapU14(count) as real * (2.0 * pi / ENC_MOD as real)
  }

  /** `x % m` on floats, for a positive `m`. */
  function RealMod(x: real, m: real): real
    requires m > 0.0
  {
    x - m * (x / m).Floor as real
  }

  function RadToU14Count(rad: real, pi: real): int
    requires pi > 0.0
  {
    RoundHalfAway(RealMod(rad, 2.0 * pi) / (2.0 * pi) * ENC_MOD as real) % ENC_MOD
  }

  // ----- Wrapping -----

  lemma {:induction false} WrapShift(x: int, k: int)
    ensures WrapU14(x + k * ENC_MOD) == WrapU14(x)
    decreases if k < 0 then -k else k
  {
    if k > 0 {
      WrapShift(x, k - 1);
      assert x + k * ENC_MOD == (x + (k - 1) * ENC_MOD) + ENC_MOD;
    } else if k < 0 {
      WrapShift(x, k + 1);
      assert x + k * ENC_MOD == (x + (k + 1) * ENC_MOD) - ENC_MOD;
    }
  }

  /** Wrapping changes a count by whole turns. */
  lemma WrapCongruent(x: int) returns (turns: int)
    ensures x == WrapU14(x) + turns * 16384
  {
    turns := x / ENC_MOD;
  }

  /** Two counts that differ by whole turns read the same, and only those. */
  lemma SameReading(x: int, y: int)
    ensures WrapU14(x) == WrapU14(y) <==> (x - y) % ENC_MOD == 0
  {
    var a := WrapCongruent(x);
    var b := WrapCongruent(y);
    if WrapU14(x) == WrapU14(y) {
      assert x - y == (a - b) * ENC_MOD;
      WrapShift(0, a - b);
    }
    if (x - y) % ENC_MOD == 0 {
      var k := (x - y) / ENC_MOD;
      assert x == y + k * ENC_MOD;
      WrapShift(y, k);
    }
  }

  // ----- Shortest differences -----

  /** The shortest difference leads from the previous reading to the current one, and no
      difference that does so is smaller in size. */
  lemma ShortestDeltaIsShortest(curr: int, prev: int, other: int)
    requires WrapU14(prev + other) == WrapU14(curr)
    ensures WrapU14(prev + ShortestDelta(curr, prev)) == WrapU14(curr)
    ensures -8192 <= ShortestDelta(curr, prev) <= 8192
    ensures ShortestDelta(curr, prev) <= (if other < 0 then -other else other)
    ensures -ShortestDelta(curr, prev) <= (if other < 0 then -other else other)
  {
    var d := ShortestDelta(curr, prev);
    var a := WrapCongruent(curr);
    var b := WrapCongruent(prev);
    var turn := d - (WrapU14(curr) - WrapU14(prev));
    assert turn == 0 || turn == ENC_MOD || turn == -ENC_MOD;
    var t := turn / ENC_MOD;
    assert prev + d == curr + (b - a + t) * ENC_MOD;
    WrapShift(curr, b - a + t);
    SameReading(prev + other, curr);
    SameReading(prev + d, prev + other);
    var k := (d - other) / ENC_MOD;
    assert d - other == k * ENC_MOD;
  }

  /** Reading back a true step d: exact precisely when the step is shorter than half a turn, or
      is half a turn in the direction in which the reading did not wrap around. */
  lemma ShortestDeltaRecovers(prev: int, d: int)
    ensures ShortestDelta(prev + d, prev) == d <==>
              || -8192 < d < 8192
              || (d == 8192 && WrapU14(prev) < 8192)
              || (d == -8192 && WrapU14(prev) >= 8192)
  {
    var b := WrapCongruent(prev);
    var a := WrapCongruent(prev + d);
    var p, c := WrapU14(prev), WrapU14(prev + d);
    assert c - p == d + (b - a) * ENC_MOD;
    if -ENC_HALF <= d <= ENC_HALF {
      assert b - a == 0 || b - a == 1 || b - a == -1;
    } else {
      assert -ENC_HALF <= ShortestDelta(prev + d, prev) <= ENC_HALF;
    }
  }

  /** The sum of the shortest differences along a trace of readings. */
  function Travelled(readings: seq<int>): int {
    if |readings| < 2 then 0
    else Travelled(readings[..|readings| - 1])
         + ShortestDelta(readings[|readings| - 1], readings[|readings| - 2])
  }

  /** The wrapped reading of every true position. */
  function Readings(positions: seq<int>): (r: seq<int>)
    ensures |r| == |positions|
  {
    seq(|positions|, k requires 0 <= k < |positions| => WrapU14(positions[k]))
  }

  lemma StepRecovered(curr: int, prev: int)
    requires -8192 < curr - prev < 8192
    ensures ShortestDelta(WrapU14(curr), WrapU14(prev)) == curr - prev
  {
    ShortestDeltaRecovers(prev, curr - prev);
  }

  /** Summing the differences of wrapped readings gives the true displacement, over any number of
      turns, when every true step is shorter than half a turn. */
  lemma {:induction false} TravelledIsDisplacement(positions: seq<int>)
    requires |positions| > 0
    requires forall k :: 0 < k < |positions| ==> -8192 < positions[k] - positions[k - 1] < 8192
    ensures Travelled(Readings(positions)) == positions[|positions| - 1] - positions[0]
    decreases |positions|
  {
    var n := |positions| - 1;
    if n > 0 {
      TravelledIsDisplacement(positions[..n]);
      assert Readings(positions)[..n] == Readings(positions[..n]);
      StepRecovered(positions[n], positions[n - 1]);
    }
  }

  // ----- Radians -----

  lemma DivideOut(x: real, m: real)
    requires m > 0.0
    ensures x * m / m == x
  {
  }

  /** On every wrapped count, converting to radians and back is the identity. */
  lemma RadRoundTrip(count: int, pi: real)
    requires 0 <= count < 16384 && pi > 0.0
    ensures RadToU14Count(U14CountToRad(count, pi), pi) == count
  {
    var turn := 2.0 * pi;
    var rad := U14CountToRad(count, pi);
    var part := count as real / ENC_MOD as real;
    assert rad == part * turn;
    DivideOut(part, turn);
    assert (rad / turn).Floor == 0;
    assert RealMod(rad, turn) == rad;
    assert rad / turn * ENC_MOD as real == count as real;
    RoundsToNearest(count as real, count);
  }

  /** `count`, with so many whole turns more, is at most half a step of the encoder away from `rad`. */
  predicate Nearest(count: int, rad: real, turns: int, pi: real) {
    var back := U14CountToRad(count, pi) + turns as real * (2.0 * pi);
    -(pi / 16384.0) <= back - rad <= pi / 16384.0
  }

  /** For every angle, the count it converts to stands for an angle that is, up to whole turns,
      at most half a step of the encoder away. */
  lemma RadToCountIsNearest(rad: real, pi: real) returns (turns: int)
    requires pi > 0.0
    ensures Nearest(RadToU14Count(rad, pi), rad, turns, pi)
  {
    var turn, step := 2.0 * pi, 2.0 * pi / ENC_MOD as real;
    var part := RealMod(rad, turn);
    var x := part / turn * ENC_MOD as real;
    RoundErrorAtMostHalf(x);
    CountNear(part, turn, x, step, RoundHalfAway(x));
    turns := (rad / turn).Floor + RoundHalfAway(x) / ENC_MOD;
    TurnsNear(RoundHalfAway(x), rad, (rad / turn).Floor, part, pi);
  }

  lemma CountNear(part: real, turn: real, x: real, step: real, n: int)
    requires turn > 0.0 && x == part / turn * ENC_MOD as real && step == turn / ENC_MOD as real
    requires -0.5 <= n as real - x <= 0.5
    ensures -(0.5 * step) <= n as real * step - part <= 0.5 * step
  {
    DivideBack(turn, ENC_MOD as real, step);
    CountsBack(part, turn, x, step);
    ErrorSplits(n as real, x, n as real - x, step, part);
  }

  lemma ErrorSplits(n: real, x: real, e: real, step: real, part: real)
    requires e == n - x && -0.5 <= e <= 0.5 && step > 0.0 && x * step == part
    ensures -(0.5 * step) <= n * step - part <= 0.5 * step
  {
    var p := e * step;
    ErrorSpreads(n, x, e, step, p);
    ErrorScales(e, step, p);
  }

  lemma ErrorSpreads(n: real, x: real, e: real, step: real, p: real)
    requires e == n - x && p == e * step
    ensures p == n * step - x * step
  {
  }

  lemma TurnsNear(n: int, rad: real, whole: int, part: real, pi: real)
    requires pi > 0.0 && rad == part + 2.0 * pi * whole as real
    requires var step := 2.0 * pi / ENC_MOD as real; -(0.5 * step) <= n as real * step - part <= 0.5 * step
    ensures Nearest(n % ENC_MOD, rad, whole + n / ENC_MOD, pi)
  {
    var turn, step := 2.0 * pi, 2.0 * pi / ENC_MOD as real;
    var over, rest := n / ENC_MOD, n % ENC_MOD;
    DivideBack(turn, ENC_MOD as real, step);
    WholeTurns(n, over, rest, step, turn);
    Join(whole, over, turn);
    HalfOf(pi);
    Assemble(rest as real * step, over as real * turn, turn * whole as real, n as real * step, part, rad,
             (whole + over) as real * turn, pi / ENC_MOD as real);
  }

  lemma HalfOf(pi: real)
    ensures 0.5 * (2.0 * pi / ENC_MOD as real) == pi / ENC_MOD as real
  {
  }

  /** All products of the conversion, named. */
  lemma Assemble(restStep: real, overTurn: real, wholeTurn: real, nStep: real, part: real, rad: real, turns: real,
                 half: real)
    requires nStep == restStep + overTurn && turns == wholeTurn + overTurn && rad == part + wholeTurn
    requires -half <= nStep - part <= half
    ensures -half <= restStep + turns - rad <= half
  {
  }

  lemma CountsBack(part: real, turn: real, x: real, step: real)
    requires turn > 0.0 && x == part / turn * ENC_MOD as real && step * ENC_MOD as real == turn
    ensures x * step == part
  {
    var q := part / turn;
    DivideBack(part, turn, q);
    assert q * (step * ENC_MOD as real) == q * turn;
  }

  lemma WholeTurns(n: int, over: int, rest: int, step: real, turn: real)
    requires n == rest + over * ENC_MOD && step * ENC_MOD as real == turn
    ensures n as real * step == rest as real * step + over as real * turn
  {
    var k := over as real;
    assert n as real == rest as real + k * ENC_MOD as real;
    assert k * (ENC_MOD as real * step) == k * turn;
  }

  lemma ErrorScales(e: real, step: real, p: real)
    requires -0.5 <= e <= 0.5 && step > 0.0 && p == e * step
    ensures -(0.5 * step) <= p <= 0.5 * step
  {
    var above, below := (0.5 - e) * step, (e - -0.5) * step;
    NonNegative(0.5 - e, step, above);
    NonNegative(e - -0.5, step, below);
    ErrorSpreads(0.5, e, 0.5 - e, step, above);
    ErrorSpreads(e, -0.5, e - -0.5, step, below);
  }

  lemma Join(whole: int, over: int, turn: real)
    ensures (whole + over) as real * turn == turn * whole as real + over as real * turn
  {
  }

  /** A whole turn has 16384 counts. */
  lemma CountStandsFor(count: int, pi: real)
    ensures U14CountToRad(count, pi) * 16384.0 == WrapU14(count) as real * (2.0 * pi)
  {
    var step := 2.0 * pi / ENC_MOD as real;
    DivideBack(2.0 * pi, ENC_MOD as real, step);
    assert WrapU14(count) as real * (step * 16384.0) == WrapU14(count) as real * (2.0 * pi);
  }

  // ----- Offsets -----

  /** The count written so that the encoder reads `desired`. */
  function OffsetFor(original: int, desiredRad: real, pi: real): int
    requires pi > 0.0
  {
    (RadToU14Count(desiredRad, pi) - WrapU14(original)) % ENC_MOD
  }

  /** `encode_write_encoder_offset_frame`: the low 16 bits, least significant byte first. */
  function OffsetPayload(offset: int): (data: seq<byte>)
    ensures |data| == 8
  {
    var low := offset % 0x1_0000;
    [CMD_WRITE_ENCODER_OFFSET, 0, 0, 0, 0, 0, low % 256, (low / 256) % 256]
  }

  /** How the acknowledgement reads the offset back. */
  function OffsetFromPayload(data: seq<byte>): int
    requires |data| == 8
  {
    WrapU14(DecodeLE(data[6..8]))
  }

  /** The frame is the opcode 0x91, five zeros, and the low 16 bits, least significant byte first. */
  lemma OffsetBytes(offset: int)
    ensures var d := OffsetPayload(offset);
            && d[..6] == [0x91, 0, 0, 0, 0, 0] && (256 * d[7] as int + d[6] - offset) % 0x1_0000 == 0
  {
    var d, low := OffsetPayload(offset), offset % 0x1_0000;
    assert d[..6] == [0x91, 0, 0, 0, 0, 0];
    var high: int := d[7];
    assert high == low / 256 && 256 * high + low % 256 == low;
  }

  lemma OffsetArrives(offset: int)
    requires 0 <= offset < ENC_MOD
    ensures OffsetFromPayload(OffsetPayload(offset)) == offset
  {
    Widths();
    DecodeEncode(offset, 2);
    assert EncodeLE(offset, 2) == [offset % 256] + EncodeLE(offset / 256, 1);
    assert EncodeLE(offset / 256, 1) == [offset / 256];
    assert OffsetPayload(offset)[6..8] == EncodeLE(offset, 2);
  }

  /** Adding `sent` to the original count lands on the desired count, up to whole turns. */
  lemma OffsetReaches(original: int, desired: int)
    ensures WrapU14(original + (desired - WrapU14(original)) % ENC_MOD) == WrapU14(desired)
  {
    var sent := (desired - WrapU14(original)) % ENC_MOD;
    var a := WrapCongruent(original);
    var k := (desired - WrapU14(original)) / ENC_MOD;
    assert original + sent == desired + (a - k) * ENC_MOD;
    WrapShift(desired, a - k);
  }

  lemma OffsetLands(original: int, desired: int)
    requires 0 <= desired < ENC_MOD
    ensures var sent := (desired - WrapU14(original)) % ENC_MOD;
            var arrived := OffsetFromPayload(OffsetPayload(sent));
            arrived == sent && WrapU14(original + arrived) == desired
  {
    OffsetArrives((desired - WrapU14(original)) % ENC_MOD);
    OffsetReaches(original, desired);
  }

  /** The offset survives the bytes, and adding what arrives to the original count reads as the
      desired angle, to within half a step, for every angle and every original count. */
  lemma OffsetSetsPosition(original: int, desiredRad: real, pi: real) returns (turns: int)
    requires pi > 0.0
    ensures var sent := OffsetFor(original, desiredRad, pi);
            var arrived := OffsetFromPayload(OffsetPayload(sent));
            && arrived == sent
            && WrapU14(original + arrived) == RadToU14Count(desiredRad, pi)
            && Nearest(WrapU14(original + arrived), desiredRad, turns, pi)
  {
    OffsetLands(original, RadToU14Count(desiredRad, pi));
    turns := RadToCountIsNearest(desiredRad, pi);
  }
}
