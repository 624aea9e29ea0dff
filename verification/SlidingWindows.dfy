/** The dashboard's two sliding windows: the bus load and the heartbeat of a node. Each object
    keeps, as ghost state, everything ever added to it and the clock readings of its calls. */
module SlidingWindows {
  import opened Bytes
  import opened Options
  import opened Reals
  import opened TimeWindow

  const TINY := 0.000000001

  function Max(a: real, b: real): real { if a >= b then a else b }

  // ----- Bus load -----

  datatype Direction = Rx | Tx | Other

  datatype Load = Load(bits: int, direction: Direction)

  datatype Totals = Totals(rxFrames: int, txFrames: int, rxBits: int, txBits: int)

  function Counted(t: Totals, load: Load): Totals {
    match load.direction
    case Rx => t.(rxFrames := t.rxFrames + 1, rxBits := t.rxBits + load.bits)
    case Tx => t.(txFrames := t.txFrames + 1, txBits := t.txBits + load.bits)
    case Other => t
  }

  function TotalsOf(events: seq<Event<Load>>): Totals
    decreases |events|
  {
    if events == [] then Totals(0, 0, 0, 0)
    else Counted(TotalsOf(events[..|events| - 1]), events[|events| - 1].what)
  }

  datatype Snapshot = Snapshot(totals: Totals, rxRate: real, txRate: real, estimatedBps: real, loadPercent: real)

  class BusLoadWindow {
    const windowS: real
    const bitrate: real
    var events: seq<Event<Load>>
    ghost var added: seq<Event<Load>>
    ghost var clock: Clock

    constructor (windowS: real, bitrate: real)
      ensures Valid() && added == [] && clock == NotRead
      ensures this.windowS == windowS && this.bitrate == bitrate
    {
      this.windowS, this.bitrate := windowS, bitrate;
      events, added, clock := [], [], NotRead;
    }

    ghost predicate Valid()
      reads this
    {
      Covers(events, added, clock, windowS)
    }

    method Record(timestamp: real, bits: int, direction: Direction)
      requires Valid()
      modifies this
      ensures Valid() && clock == Advance(old(clock), timestamp)
      ensures added == old(added) + [Event(timestamp, Load(if bits > 0 then bits else 0, direction))]
    {
      var e := Event(timestamp, Load(if bits > 0 then bits else 0, direction));
      AddKeepsCover(events, added, clock, windowS, e);
      events := Prune(events + [e], timestamp - windowS);
      added, clock := added + [e], Advance(clock, timestamp);
    }

    /** The totals are those of exactly the entries, out of all ever recorded, that the window
        covers, if the clock never ran backwards. */
    method Look(now: real) returns (s: Snapshot)
      requires Valid()
      modifies this
      ensures Valid() && added == old(added) && clock == Advance(old(clock), now)
      ensures clock != RanBackwards ==> s.totals == TotalsOf(Recent(added, now - windowS))
      ensures s == RatesOf(s.totals, windowS, bitrate)
    {
      LookKeepsCover(events, added, clock, windowS, now);
      events := Prune(events, now - windowS);
      clock := Advance(clock, now);
      var t := Count(events);
      s := RatesOf(t, windowS, bitrate);
    }
  }

  /** The summing loop of `snapshot`. */
  method Count(events: seq<Event<Load>>) returns (t: Totals)
    ensures t == TotalsOf(events)
  {
    t := Totals(0, 0, 0, 0);
    for k := 0 to |events|
      invariant t == TotalsOf(events[..k])
    {
      assert events[..k + 1][..k] == events[..k];
      t := Counted(t, events[k].what);
    }
    assert events[..|events|] == events;
  }

  /** The rates of a snapshot, guarded against an empty window and a missing bit rate. */
  function RatesOf(t: Totals, windowS: real, bitrate: real): (s: Snapshot)
    ensures s.totals == t
  {
    var duration := Max(windowS, TINY);
    var bps := (t.rxBits + t.txBits) as real / duration;
    Snapshot(t, t.rxFrames as real / duration, t.txFrames as real / duration, bps, bps / Max(bitrate, TINY) * 100.0)
  }

  /** What the totals mean: every entry counts once, in its own direction. */
  lemma {:induction false} TotalsAdd(a: seq<Event<Load>>, b: seq<Event<Load>>)
    ensures var t, u, v := TotalsOf(a), TotalsOf(b), TotalsOf(a + b);
            && v.rxFrames == t.rxFrames + u.rxFrames && v.txFrames == t.txFrames + u.txFrames
            && v.rxBits == t.rxBits + u.rxBits && v.txBits == t.txBits + u.txBits
    decreases |b|
  {
    if b == [] {
      assert a + b == a;
    } else {
      TotalsAdd(a, b[..|b| - 1]);
      assert (a + b)[..|a + b| - 1] == a + b[..|b| - 1];
    }
  }

  /** The entries of one direction, in order. */
  function OnlyOf(events: seq<Event<Load>>, direction: Direction): (only: seq<Event<Load>>)
    ensures forall e :: e in only <==> e in events && e.what.direction == direction
    decreases |events|
  {
    if events == [] then []
    else
      var n := |events| - 1;
      var before := OnlyOf(events[..n], direction);
      assert events == events[..n] + [events[n]];
      if events[n].what.direction == direction then before + [events[n]] else before
  }

  function SumOfBits(events: seq<Event<Load>>): int
    decreases |events|
  {
    if events == [] then 0 else SumOfBits(events[..|events| - 1]) + events[|events| - 1].what.bits
  }

  /** What the totals are: the number of received entries and the sum of their bits, and the same for the
      sent ones. */
  lemma {:induction false} TotalsMean(events: seq<Event<Load>>)
    ensures var t, rx, tx := TotalsOf(events), OnlyOf(events, Rx), OnlyOf(events, Tx);
            && t.rxFrames == |rx| && t.rxBits == SumOfBits(rx)
            && t.txFrames == |tx| && t.txBits == SumOfBits(tx)
    decreases |events|
  {
    if events != [] {
      var n := |events| - 1;
      TotalsMean(events[..n]);
      AddBits(OnlyOf(events[..n], Rx), events[n]);
      AddBits(OnlyOf(events[..n], Tx), events[n]);
    }
  }

  lemma AddBits(events: seq<Event<Load>>, e: Event<Load>)
    ensures SumOfBits(events + [e]) == SumOfBits(events) + e.what.bits
  {
    assert (events + [e])[..|events|] == events;
  }

  /** What the rates are: over a window and at a bit rate that are not tiny, each rate times the window gives
      back its own total, and the load is the share of the bit rate in percent. */
  lemma RatesMean(t: Totals, windowS: real, bitrate: real)
    requires windowS >= TINY && bitrate >= TINY
    ensures var s := RatesOf(t, windowS, bitrate);
            && s.rxRate * windowS == t.rxFrames as real && s.txRate * windowS == t.txFrames as real
            && s.estimatedBps * windowS == (t.rxBits + t.txBits) as real
            && s.loadPercent * bitrate == s.estimatedBps * 100.0
  {
    var s := RatesOf(t, windowS, bitrate);
    DivideBack(t.rxFrames as real, windowS, s.rxRate);
    DivideBack(t.txFrames as real, windowS, s.txRate);
    DivideBack((t.rxBits + t.txBits) as real, windowS, s.estimatedBps);
    Percent(s.estimatedBps, bitrate, s.estimatedBps / bitrate, s.loadPercent);
  }

  lemma Percent(bps: real, bitrate: real, share: real, percent: real)
    requires bitrate > 0.0 && share == bps / bitrate && percent == share * 100.0
    ensures percent * bitrate == bps * 100.0
  {
    DivideBack(bps, bitrate, share);
    assert percent * bitrate == (share * bitrate) * 100.0;
  }

  // ----- Heartbeat -----

  class NodeState {
    const timeoutS: real
    const heartbeatWindowS: real
    var rxCount: nat
    var lastT: real
    var lastData: seq<byte>
    var timestamps: seq<Event<()>>
    ghost var added: seq<Event<()>>
    ghost var clock: Clock

    constructor (timeoutS: real, heartbeatWindowS: real)
      ensures Valid() && added == [] && clock == NotRead
      ensures this.timeoutS == timeoutS && this.heartbeatWindowS == heartbeatWindowS
    {
      this.timeoutS, this.heartbeatWindowS := timeoutS, heartbeatWindowS;
      rxCount, lastT, lastData := 0, 0.0, [];
      timestamps, added, clock := [], [], NotRead;
    }

    ghost predicate Valid()
      reads this
    {
      && Covers(timestamps, added, clock, heartbeatWindowS)
      && rxCount == |added|
      && lastT == (if added == [] then 0.0 else added[|added| - 1].time)
    }

    method MarkRx(now: real, data: seq<byte>)
      requires Valid()
      modifies this
      ensures Valid() && added == old(added) + [Event(now, ())] && clock == Advance(old(clock), now)
      ensures lastData == data
    {
      AddKeepsCover(timestamps, added, clock, heartbeatWindowS, Event(now, ()));
      rxCount, lastT, lastData := rxCount + 1, now, data;
      timestamps := Prune(timestamps + [Event(now, ())], now - heartbeatWindowS);
      added, clock := added + [Event(now, ())], Advance(clock, now);
    }

    /** The rate is taken over exactly the reports that the window covers, out of all that ever
        arrived; the status and the count come from the whole history. */
    method Look(now: real) returns (s: NodeSnapshot)
      requires Valid()
      modifies this
      ensures Valid() && added == old(added) && lastData == old(lastData) && clock == Advance(old(clock), now)
      ensures s.rxCount == |added|
      ensures s.status == Never <==> added == [] || added[|added| - 1].time <= 0.0
      ensures s.status == Online <==>
                && added != [] && 0.0 < added[|added| - 1].time
                && timeoutS >= 0.0 && now - added[|added| - 1].time <= timeoutS
      ensures s.age.None? <==> s.status == Never
      ensures s.age.Some? ==> var last := added[|added| - 1].time; s.age.value == if now > last then now - last else 0.0
      ensures clock != RanBackwards ==> s.heartbeatHz == HeartbeatHz(Recent(added, now - heartbeatWindowS))
    {
      LookKeepsCover(timestamps, added, clock, heartbeatWindowS, now);
      timestamps := Prune(timestamps, now - heartbeatWindowS);
      clock := Advance(clock, now);
      var age := None;
      var status := Never;
      if lastT > 0.0 {
        age := Some(Max(0.0, now - lastT));
        status := if age.value > timeoutS then Timeout else Online;
      }
      s := NodeSnapshot(status, HeartbeatHz(timestamps), age, rxCount);
    }
  }

  datatype Status = Never | Timeout | Online

  datatype NodeSnapshot = NodeSnapshot(status: Status, heartbeatHz: real, age: Option<real>, rxCount: nat)

  /** The number of intervals between the reports divided by the time they span, or 0 if that is
      not defined. */
  function HeartbeatHz(seen: seq<Event<()>>): real {
    if |seen| < 2 then 0.0
    else
      var duration := seen[|seen| - 1].time - seen[0].time;
      if duration <= TINY then 0.0 else (|seen| - 1) as real / duration
  }

  /** Times the time that the reports span, the rate gives back the number of intervals between them; it
      is 0 if there are fewer than two, or if they span no more than a nanosecond. */
  lemma HeartbeatMeans(seen: seq<Event<()>>)
    ensures |seen| < 2 ==> HeartbeatHz(seen) == 0.0
    ensures |seen| >= 2 ==>
              var span := seen[|seen| - 1].time - seen[0].time;
              if span > 0.000000001 then HeartbeatHz(seen) * span == (|seen| - 1) as real else HeartbeatHz(seen) == 0.0
  {
    if |seen| >= 2 && seen[|seen| - 1].time - seen[0].time > TINY {
      DivideBack((|seen| - 1) as real, seen[|seen| - 1].time - seen[0].time, HeartbeatHz(seen));
    }
  }

  lemma {:induction false} SteadySpan(seen: seq<Event<()>>, period: real)
    requires |seen| >= 1 && forall k :: 0 < k < |seen| ==> seen[k].time - seen[k - 1].time == period
    ensures seen[|seen| - 1].time - seen[0].time == (|seen| - 1) as real * period
    decreases |seen|
  {
    if |seen| > 1 {
      var n := |seen| - 1;
      SteadySpan(seen[..n], period);
      assert n as real == (n - 1) as real + 1.0;
      OneMore((n - 1) as real, period);
    }
  }

  /** A node that reports every `period` seconds shows exactly 1 / period, whatever the window
      covers, as long as it covers two reports that are far enough apart. */
  lemma SteadyHeartbeat(seen: seq<Event<()>>, period: real)
    requires |seen| >= 2 && period > TINY
    requires forall k :: 0 < k < |seen| ==> seen[k].time - seen[k - 1].time == period
    ensures HeartbeatHz(seen) * period == 1.0
  {
    SteadySpan(seen, period);
    var n := (|seen| - 1) as real;
    SpanRate(n, period);
  }

  lemma SpanRate(n: real, period: real)
    requires n >= 1.0 && period > TINY
    ensures n * period > TINY && n / (n * period) * period == 1.0
  {
    assert n * period - period == (n - 1.0) * period;
    var q := n / (n * period);
    DivideBack(n, n * period, q);
    assert (q * period - 1.0) * n == 0.0;
  }
}
