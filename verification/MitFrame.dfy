/** The 8-byte MIT command: five quantised fields of 16, 12, 12, 8 and 8 bits behind an opcode,
    as packed by the actuator driver and, a second time, by the dashboard. */
module MitFrame {
  import opened Bytes
  import opened Options
  import opened Quantize

  const CMD_MIT_CONTROL: byte := 0xC0

  datatype Config = Config(pMax: real, vMax: real, kpMax: real, kdMax: real, tauMax: real)

  datatype Command = Command(position: real, velocity: real, kp: real, kd: real, torque: real)

  datatype Words = Words(p: int, v: int, kp: int, kd: int, t: int)

  predicate WordsFit(w: Words) {
    0 <= w.p < 0x1_0000 && 0 <= w.v < 0x1000 && 0 <= w.kp < 0x1000 && 0 <= w.kd < 0x100 && 0 <= w.t < 0x100
  }

  predicate InRange(x: real, lo: real, hi: real) {
    !(x < lo || x > hi)
  }

  /** The range checks that both packers make before they quantise anything. */
  predicate AllInRange(cfg: Config, c: Command) {
    && InRange(c.position, -cfg.pMax, cfg.pMax) && InRange(c.velocity, -cfg.vMax, cfg.vMax)
    && InRange(c.kp, 0.0, cfg.kpMax) && InRange(c.kd, 0.0, cfg.kdMax)
    && InRange(c.torque, -cfg.tauMax, cfg.tauMax)
  }

  predicate PositiveSpans(cfg: Config) {
    cfg.pMax > 0.0 && cfg.vMax > 0.0 && cfg.kpMax > 0.0 && cfg.kdMax > 0.0 && cfg.tauMax > 0.0
  }

  function Rounded(cfg: Config, c: Command, round: real -> int): Words
    requires PositiveSpans(cfg)
  {
    Words(round(Scaled(c.position, -cfg.pMax, cfg.pMax, 16)), round(Scaled(c.velocity, -cfg.vMax, cfg.vMax, 12)),
          round(Scaled(c.kp, 0.0, cfg.kpMax, 12)), round(Scaled(c.kd, 0.0, cfg.kdMax, 8)),
          round(Scaled(c.torque, -cfg.tauMax, cfg.tauMax, 8)))
  }

  /** The byte `((hi & 0x0F) << 4) | (lo & 0x0F)`. */
  function JoinNibbles(hi: nat, lo: nat): (b: byte) {
    (((hi % 16) as bv8 << 4) | ((lo % 16) as bv8)) as int
  }

  lemma JoinedNibbles(hi: nat, lo: nat)
    ensures JoinNibbles(hi, lo) / 16 == hi % 16 && JoinNibbles(hi, lo) % 16 == lo % 16
  {
    var a: int, b: int := hi % 16, lo % 16;
    NibbleAsInt(a);
    NibbleAsInt(b);
    Nibbles(a as bv8, b as bv8);
    assert JoinNibbles(hi, lo) == 16 * a + b;
  }

  lemma NibbleAsInt(a: int)
    requires 0 <= a < 16
    ensures (a as bv8) as int == a && (a as bv8) < 16
  {
  }

  lemma Nibbles(hi: bv8, lo: bv8)
    requires hi < 16 && lo < 16
    ensures ((hi << 4) | lo) as int == 16 * (hi as int) + lo as int
  {
    assert (hi << 4) | lo == 16 * hi + lo;
  }

  /** The bytes that carry the five words. */
  function Pack(w: Words): (data: seq<byte>)
    requires WordsFit(w)
    ensures |data| == 8
  {
    [CMD_MIT_CONTROL, w.p / 256, w.p % 256, w.v / 16, JoinNibbles(w.v, w.kp / 256), w.kp % 256, w.kd, w.t]
  }

  /** How the actuator reads the five words back. */
  function Unpack(data: seq<byte>): Words
    requires |data| == 8
  {
    var d: seq<int> := seq(8, k requires 0 <= k < 8 => data[k] as int);
    Words(256 * d[1] + d[2], 16 * d[3] + d[4] / 16, 256 * (d[4] % 16) + d[5], d[6], d[7])
  }

  lemma UnpackPacked(w: Words)
    requires WordsFit(w)
    ensures Unpack(Pack(w)) == w
  {
    JoinedNibbles(w.v, w.kp / 256);
    UnpackBytes(w, Pack(w));
  }

  lemma UnpackBytes(w: Words, d: seq<int>)
    requires WordsFit(w) && |d| == 8 && forall k :: 0 <= k < 8 ==> 0 <= d[k] < 256
    requires d[1] == w.p / 256 && d[2] == w.p % 256 && d[3] == w.v / 16
    requires d[4] / 16 == w.v % 16 && d[4] % 16 == (w.kp / 256) % 16
    requires d[5] == w.kp % 256 && d[6] == w.kd && d[7] == w.t
    ensures Unpack(d) == w
  {
    assert w.kp / 256 < 16;
  }

  // ----- The two packers -----

  lemma Widths()
    ensures Pow2(8) == 0x100 && Pow2(12) == 0x1000 && Pow2(16) == 0x1_0000
  {
    assert Pow2(4) == 16;
    assert Pow2(8) == 0x100;
    assert Pow2(12) == 0x1000;
    assert Pow2(16) == 0x1_0000;
  }

  /** In range and on positive spans, every field quantises to its rounded value, which fits. */
  lemma FieldsQuantise(cfg: Config, c: Command)
    requires AllInRange(cfg, c) && PositiveSpans(cfg)
    ensures var w := Rounded(cfg, c, RoundHalfAway);
            && WordsFit(w)
            && FloatToUint(c.position, -cfg.pMax, cfg.pMax, 16) == Ok(w.p)
            && FloatToUint(c.velocity, -cfg.vMax, cfg.vMax, 12) == Ok(w.v)
            && FloatToUint(c.kp, 0.0, cfg.kpMax, 12) == Ok(w.kp)
            && FloatToUint(c.kd, 0.0, cfg.kdMax, 8) == Ok(w.kd)
            && FloatToUint(c.torque, -cfg.tauMax, cfg.tauMax, 8) == Ok(w.t)
  {
    Widths();
    ClampIsIdle(c.position, -cfg.pMax, cfg.pMax, 16);
    ClampIsIdle(c.velocity, -cfg.vMax, cfg.vMax, 12);
    ClampIsIdle(c.kp, 0.0, cfg.kpMax, 12);
    ClampIsIdle(c.kd, 0.0, cfg.kdMax, 8);
    ClampIsIdle(c.torque, -cfg.tauMax, cfg.tauMax, 8);
  }

  lemma DashboardFieldsQuantise(cfg: Config, c: Command)
    requires AllInRange(cfg, c) && PositiveSpans(cfg)
    ensures var w := Rounded(cfg, c, RoundHalfEven);
            && WordsFit(w)
            && DashboardFloatToUint(c.position, -cfg.pMax, cfg.pMax, 16) == Ok(w.p)
            && DashboardFloatToUint(c.velocity, -cfg.vMax, cfg.vMax, 12) == Ok(w.v)
            && DashboardFloatToUint(c.kp, 0.0, cfg.kpMax, 12) == Ok(w.kp)
            && DashboardFloatToUint(c.kd, 0.0, cfg.kdMax, 8) == Ok(w.kd)
            && DashboardFloatToUint(c.torque, -cfg.tauMax, cfg.tauMax, 8) == Ok(w.t)
  {
    Widths();
    DashboardInRange(c.position, -cfg.pMax, cfg.pMax, 16);
    DashboardInRange(c.velocity, -cfg.vMax, cfg.vMax, 12);
    DashboardInRange(c.kp, 0.0, cfg.kpMax, 12);
    DashboardInRange(c.kd, 0.0, cfg.kdMax, 8);
    DashboardInRange(c.torque, -cfg.tauMax, cfg.tauMax, 8);
  }

  /** What a packer that rounds with `round` returns. */
  function Payload(cfg: Config, c: Command, round: real -> int): Result<seq<byte>, Error>
    requires AllInRange(cfg, c) && PositiveSpans(cfg) ==> WordsFit(Rounded(cfg, c, round))
  {
    if !AllInRange(cfg, c) then Err(OutOfRange)
    else if !PositiveSpans(cfg) then Err(ZeroDivision)
    else Ok(Pack(Rounded(cfg, c, round)))
  }

  function MitPayload(cfg: Config, c: Command): Result<seq<byte>, Error> {
    if AllInRange(cfg, c) && PositiveSpans(cfg) then FieldsQuantise(cfg, c); Payload(cfg, c, RoundHalfAway)
    else Payload(cfg, c, RoundHalfAway)
  }

  function DashboardPayload(cfg: Config, c: Command): Result<seq<byte>, Error> {
    if AllInRange(cfg, c) && PositiveSpans(cfg) then DashboardFieldsQuantise(cfg, c); Payload(cfg, c, RoundHalfEven)
    else Payload(cfg, c, RoundHalfEven)
  }

  /** The driver's `_pack_mit_payload`. */
  method PackMitPayload(cfg: Config, c: Command) returns (r: Result<seq<byte>, Error>)
    ensures r == MitPayload(cfg, c)
  {
    if !AllInRange(cfg, c) {
      return Err(OutOfRange);
    }
    if PositiveSpans(cfg) { FieldsQuantise(cfg, c); }
    var p := FloatToUint(c.position, -cfg.pMax, cfg.pMax, 16);
    if p.Err? { return Err(p.error); }
    var v := FloatToUint(c.velocity, -cfg.vMax, cfg.vMax, 12);
    if v.Err? { return Err(v.error); }
    var kp := FloatToUint(c.kp, 0.0, cfg.kpMax, 12);
    if kp.Err? { return Err(kp.error); }
    var kd := FloatToUint(c.kd, 0.0, cfg.kdMax, 8);
    if kd.Err? { return Err(kd.error); }
    var t := FloatToUint(c.torque, -cfg.tauMax, cfg.tauMax, 8);
    if t.Err? { return Err(t.error); }
    var data := Fill(p.value, v.value, kp.value, kd.value, t.value);
    r := Ok(data);
  }

  /** The dashboard's `pack_mit_payload`. */
  method PackDashboardPayload(cfg: Config, c: Command) returns (r: Result<seq<byte>, Error>)
    ensures r == DashboardPayload(cfg, c)
  {
    if !AllInRange(cfg, c) {
      return Err(OutOfRange);
    }
    if PositiveSpans(cfg) { DashboardFieldsQuantise(cfg, c); }
    var p := DashboardFloatToUint(c.position, -cfg.pMax, cfg.pMax, 16);
    if p.Err? { return Err(p.error); }
    var v := DashboardFloatToUint(c.velocity, -cfg.vMax, cfg.vMax, 12);
    if v.Err? { return Err(v.error); }
    var kp := DashboardFloatToUint(c.kp, 0.0, cfg.kpMax, 12);
    if kp.Err? { return Err(kp.error); }
    var kd := DashboardFloatToUint(c.kd, 0.0, cfg.kdMax, 8);
    if kd.Err? { return Err(kd.error); }
    var t := DashboardFloatToUint(c.torque, -cfg.tauMax, cfg.tauMax, 8);
    if t.Err? { return Err(t.error); }
    var data := Fill(p.value, v.value, kp.value, kd.value, t.value);
    r := Ok(data);
  }

  /** The byte array that both packers fill, with their masks. */
  method Fill(p: int, v: int, kp: int, kd: int, t: int) returns (bytes: seq<byte>)
    requires WordsFit(Words(p, v, kp, kd, t))
    ensures bytes == Pack(Words(p, v, kp, kd, t))
  {
    var data := new byte[8];
    data[0] := CMD_MIT_CONTROL;
    data[1] := (p / 256) % 256;
    data[2] := p % 256;
    data[3] := (v / 16) % 256;
    data[4] := JoinNibbles(v, kp / 256);
    data[5] := kp % 256;
    data[6] := kd % 256;
    data[7] := t % 256;
    bytes := data[..];
    MasksIdle(p, v, kd, t);
    assert bytes == [data[0], data[1], data[2], data[3], data[4], data[5], data[6], data[7]];
  }

  lemma MasksIdle(p: int, v: int, kd: int, t: int)
    requires 0 <= p < 0x1_0000 && 0 <= v < 0x1000 && 0 <= kd < 0x100 && 0 <= t < 0x100
    ensures (p / 256) % 256 == p / 256 && (v / 16) % 256 == v / 16 && kd % 256 == kd && t % 256 == t
  {
  }

  /** The driver's packer succeeds exactly on commands in range over positive spans. Its bytes
      then unpack to the five words nearest to the command (halves away from zero). */
  lemma DriverBytesMean(cfg: Config, c: Command)
    ensures MitPayload(cfg, c).Ok? <==> AllInRange(cfg, c) && PositiveSpans(cfg)
    ensures MitPayload(cfg, c).Ok? ==>
              && |MitPayload(cfg, c).value| == 8 && MitPayload(cfg, c).value[0] == 0xC0
              && Unpack(MitPayload(cfg, c).value) == Rounded(cfg, c, RoundHalfAway)
  {
    if AllInRange(cfg, c) && PositiveSpans(cfg) {
      FieldsQuantise(cfg, c);
      UnpackPacked(Rounded(cfg, c, RoundHalfAway));
    }
  }

  /** Every field of the command lies in its range, ends included. */
  predicate WithinLimits(cfg: Config, c: Command) {
    && -cfg.pMax <= c.position <= cfg.pMax
    && -cfg.vMax <= c.velocity <= cfg.vMax
    && 0.0 <= c.kp <= cfg.kpMax
    && 0.0 <= c.kd <= cfg.kdMax
    && -cfg.tauMax <= c.torque <= cfg.tauMax
  }

  /** Main result: both packers accept a command if and only if every field lies in its range and every
      range has a positive span. They refuse it for its range if a field lies outside, and
      otherwise for a division by zero. */
  lemma PacksExactly(cfg: Config, c: Command)
    ensures var spans := 0.0 < cfg.pMax && 0.0 < cfg.vMax && 0.0 < cfg.kpMax && 0.0 < cfg.kdMax && 0.0 < cfg.tauMax;
            forall r | r == MitPayload(cfg, c) || r == DashboardPayload(cfg, c) ::
              && (r.Ok? <==> WithinLimits(cfg, c) && spans)
              && (r == Err(OutOfRange) <==> !WithinLimits(cfg, c))
              && (r == Err(ZeroDivision) <==> WithinLimits(cfg, c) && !spans)
  {
    DriverBytesMean(cfg, c);
    PackersAgree(cfg, c);
  }

  /** The words stand for the command: each within half a step of its own field, in its own range. */
  predicate Stands(cfg: Config, c: Command, w: Words) {
    && WithinHalfStep(Reconstruct(w.p, -cfg.pMax, cfg.pMax, 16), c.position, -cfg.pMax, cfg.pMax, 16)
    && WithinHalfStep(Reconstruct(w.v, -cfg.vMax, cfg.vMax, 12), c.velocity, -cfg.vMax, cfg.vMax, 12)
    && WithinHalfStep(Reconstruct(w.kp, 0.0, cfg.kpMax, 12), c.kp, 0.0, cfg.kpMax, 12)
    && WithinHalfStep(Reconstruct(w.kd, 0.0, cfg.kdMax, 8), c.kd, 0.0, cfg.kdMax, 8)
    && WithinHalfStep(Reconstruct(w.t, -cfg.tauMax, cfg.tauMax, 8), c.torque, -cfg.tauMax, cfg.tauMax, 8)
  }

  /** Main result: what the actuator unpacks stands for the command, from either packer. */
  lemma BytesStandForCommand(cfg: Config, c: Command)
    ensures MitPayload(cfg, c).Ok? ==>
              |MitPayload(cfg, c).value| == 8 && Stands(cfg, c, Unpack(MitPayload(cfg, c).value))
    ensures DashboardPayload(cfg, c).Ok? ==>
              |DashboardPayload(cfg, c).value| == 8 && Stands(cfg, c, Unpack(DashboardPayload(cfg, c).value))
  {
    if AllInRange(cfg, c) && PositiveSpans(cfg) {
      FieldsQuantise(cfg, c);
      DashboardFieldsQuantise(cfg, c);
      UnpackPacked(Rounded(cfg, c, RoundHalfAway));
      UnpackPacked(Rounded(cfg, c, RoundHalfEven));
      DriverWordsStand(cfg, c);
      DashboardWordsStand(cfg, c);
    }
  }

  lemma DriverWordsStand(cfg: Config, c: Command)
    requires AllInRange(cfg, c) && PositiveSpans(cfg)
    ensures Stands(cfg, c, Rounded(cfg, c, RoundHalfAway))
  {
    FieldsQuantise(cfg, c);
    ReconstructionError(c.position, -cfg.pMax, cfg.pMax, 16);
    ReconstructionError(c.velocity, -cfg.vMax, cfg.vMax, 12);
    ReconstructionError(c.kp, 0.0, cfg.kpMax, 12);
    ReconstructionError(c.kd, 0.0, cfg.kdMax, 8);
    ReconstructionError(c.torque, -cfg.tauMax, cfg.tauMax, 8);
  }

  lemma DashboardWordsStand(cfg: Config, c: Command)
    requires AllInRange(cfg, c) && PositiveSpans(cfg)
    ensures Stands(cfg, c, Rounded(cfg, c, RoundHalfEven))
  {
    DashboardFieldsQuantise(cfg, c);
    DashboardReconstructionError(c.position, -cfg.pMax, cfg.pMax, 16);
    DashboardReconstructionError(c.velocity, -cfg.vMax, cfg.vMax, 12);
    DashboardReconstructionError(c.kp, 0.0, cfg.kpMax, 12);
    DashboardReconstructionError(c.kd, 0.0, cfg.kdMax, 8);
    DashboardReconstructionError(c.torque, -cfg.tauMax, cfg.tauMax, 8);
  }

  /** The number that bytes make, most significant first. */
  function BigEndian(bs: seq<byte>): nat
    decreases |bs|
  {
    if bs == [] then 0 else BigEndian(bs[..|bs| - 1]) * 256 + bs[|bs| - 1]
  }

  /** Behind the opcode 0xC0 the frame is one number of 56 bits, of which the words are the digits: 16, 12,
      12, 8 and 8 bits, most significant first. */
  lemma FrameIsOneNumber(w: Words)
    requires WordsFit(w)
    ensures Pack(w)[0] == 0xC0
    ensures BigEndian(Pack(w)[1..]) == (((w.p * 0x1000 + w.v) * 0x1000 + w.kp) * 0x100 + w.kd) * 0x100 + w.t
  {
    var d := Pack(w);
    JoinedNibbles(w.v, w.kp / 256);
    SevenBytes(d[1], d[2], d[3], d[4], d[5], d[6], d[7], d[1..]);
    var b4: int := d[4];
    assert b4 == 16 * (w.v % 16) + w.kp / 256;
    assert w.v == 16 * (w.v / 16) + w.v % 16 && w.kp == 256 * (w.kp / 256) + w.kp % 256;
    assert w.p == 256 * (w.p / 256) + w.p % 256;
  }

  lemma SevenBytes(a: byte, b: byte, c: byte, d: byte, e: byte, f: byte, g: byte, bs: seq<byte>)
    requires bs == [a, b, c, d, e, f, g]
    ensures BigEndian(bs) == (((((a as int * 256 + b) * 256 + c) * 256 + d) * 256 + e) * 256 + f) * 256 + g
  {
    var b1: seq<byte> := [a];
    var b2, b3, b4 := b1 + [b], b1 + [b, c], b1 + [b, c, d];
    var b5, b6 := b4 + [e], b4 + [e, f];
    assert b1[..0] == [] && b2[..1] == b1 && b3[..2] == b2 && b4[..3] == b3;
    assert b5[..4] == b4 && b6[..5] == b5 && bs[..6] == b6;
    assert BigEndian(b1) == a && BigEndian(b2) == a as int * 256 + b;
    assert BigEndian(b3) == (a as int * 256 + b) * 256 + c;
    assert BigEndian(b4) == ((a as int * 256 + b) * 256 + c) * 256 + d;
    assert BigEndian(b5) == (((a as int * 256 + b) * 256 + c) * 256 + d) * 256 + e;
    assert BigEndian(b6) == ((((a as int * 256 + b) * 256 + c) * 256 + d) * 256 + e) * 256 + f;
  }

  /** A command of no position, velocity, stiffness or torque packs to the centres and the zero
      of its fields. */
  lemma CentreWords(cfg: Config, c: Command)
    requires AllInRange(cfg, c) && PositiveSpans(cfg)
    requires c.position == c.velocity == c.kp == c.torque == 0.0
    ensures var w := Rounded(cfg, c, RoundHalfAway);
            w.p == 0x8000 && w.v == 0x800 && w.kp == 0 && w.t == 0x80
  {
    FieldsQuantise(cfg, c);
    CentreMapsToCentre(cfg.pMax, 16);
    CentreMapsToCentre(cfg.vMax, 12);
    CentreMapsToCentre(cfg.tauMax, 8);
    ScaledEnds(0.0, cfg.kpMax, 12);
    assert Pow2(7) == 0x80 && Pow2(11) == 0x800 && Pow2(15) == 0x8000 by {
      assert Pow2(3) == 8;
      assert Pow2(7) == 0x80;
      assert Pow2(11) == 0x800;
    }
  }

  /** Some field falls on an exact tie above an even integer. */
  predicate SomeTie(cfg: Config, c: Command)
    requires PositiveSpans(cfg)
  {
    || TieAboveEven(Scaled(c.position, -cfg.pMax, cfg.pMax, 16))
    || TieAboveEven(Scaled(c.velocity, -cfg.vMax, cfg.vMax, 12))
    || TieAboveEven(Scaled(c.kp, 0.0, cfg.kpMax, 12))
    || TieAboveEven(Scaled(c.kd, 0.0, cfg.kdMax, 8))
    || TieAboveEven(Scaled(c.torque, -cfg.tauMax, cfg.tauMax, 8))
  }

  function OneIf(b: bool): int { if b then 1 else 0 }

  /** Word by word, `d` is `w` plus one exactly where the field falls on such a tie. */
  predicate DifferAtTies(cfg: Config, c: Command, d: Words, w: Words)
    requires PositiveSpans(cfg)
  {
    && d.p == w.p + OneIf(TieAboveEven(Scaled(c.position, -cfg.pMax, cfg.pMax, 16)))
    && d.v == w.v + OneIf(TieAboveEven(Scaled(c.velocity, -cfg.vMax, cfg.vMax, 12)))
    && d.kp == w.kp + OneIf(TieAboveEven(Scaled(c.kp, 0.0, cfg.kpMax, 12)))
    && d.kd == w.kd + OneIf(TieAboveEven(Scaled(c.kd, 0.0, cfg.kdMax, 8)))
    && d.t == w.t + OneIf(TieAboveEven(Scaled(c.torque, -cfg.tauMax, cfg.tauMax, 8)))
  }

  lemma RoundingsDifferAtTies(cfg: Config, c: Command)
    requires AllInRange(cfg, c) && PositiveSpans(cfg)
    ensures DifferAtTies(cfg, c, Rounded(cfg, c, RoundHalfAway), Rounded(cfg, c, RoundHalfEven))
  {
    FieldDiffersAtTies(c.position, -cfg.pMax, cfg.pMax, 16);
    FieldDiffersAtTies(c.velocity, -cfg.vMax, cfg.vMax, 12);
    FieldDiffersAtTies(c.kp, 0.0, cfg.kpMax, 12);
    FieldDiffersAtTies(c.kd, 0.0, cfg.kdMax, 8);
    FieldDiffersAtTies(c.torque, -cfg.tauMax, cfg.tauMax, 8);
  }

  lemma FieldDiffersAtTies(x: real, lo: real, hi: real, bits: nat)
    requires lo < hi && lo <= x <= hi
    ensures var s := Scaled(x, lo, hi, bits); RoundHalfAway(s) == RoundHalfEven(s) + OneIf(TieAboveEven(s))
  {
    ScaledRange(x, lo, hi, bits);
    RoundingsCompared(Scaled(x, lo, hi, bits));
  }

  /** The two packers refuse the same commands. On the others each word of the driver is the
      word of the dashboard, plus one exactly if the field falls on a tie above an even integer;
      so the bytes are identical exactly when no field does. */
  lemma PackersAgree(cfg: Config, c: Command)
    ensures MitPayload(cfg, c).Err? || DashboardPayload(cfg, c).Err? ==> MitPayload(cfg, c) == DashboardPayload(cfg, c)
    ensures MitPayload(cfg, c).Ok? ==>
              && PositiveSpans(cfg) && DashboardPayload(cfg, c).Ok?
              && (MitPayload(cfg, c) == DashboardPayload(cfg, c) <==> !SomeTie(cfg, c))
              && DifferAtTies(cfg, c, Unpack(MitPayload(cfg, c).value), Unpack(DashboardPayload(cfg, c).value))
  {
    if AllInRange(cfg, c) && PositiveSpans(cfg) {
      FieldsQuantise(cfg, c);
      DashboardFieldsQuantise(cfg, c);
      UnpackPacked(Rounded(cfg, c, RoundHalfAway));
      UnpackPacked(Rounded(cfg, c, RoundHalfEven));
      RoundingsDifferAtTies(cfg, c);
    }
  }
}
