/** The freshness monitor of a device that is never asked to confirm anything: only receptions,
    decoding errors and the polls that compare the latest reception with the clock. */
module Freshness {
  import opened Options

  datatype Status = Status(isOnline: bool, isStale: bool, rxCount: nat, timeoutCount: nat,
                           decodeErrorCount: nat, lastRxT: real, lastFaultT: real)

  /** What a monitor was told: `at` is the time of a reception, `now` a reading of the clock. */
  datatype Event = Received(at: real) | Failed(now: real) | Polled(now: real)

  // ----- What a history of events means -----

  /** The time of the latest reception, 0 before the first. */
  function LastRx(h: seq<Event>): real
    decreases |h|
  {
    if h == [] then 0.0
    else if h[|h| - 1].Received? then h[|h| - 1].at
    else LastRx(h[..|h| - 1])
  }

  predicate Silent(lastRx: real, now: real, timeout: real) {
    lastRx <= 0.0 || now - lastRx > timeout
  }

  function IsStale(h: seq<Event>, timeout: real): bool
    decreases |h|
  {
    if h == [] then true
    else
      var before := h[..|h| - 1];
      match h[|h| - 1]
      case Received(_) => false
      case Failed(_) => IsStale(before, timeout)
      case Polled(now) => Silent(LastRx(before), now, timeout)
  }

  /** How often each thing happened. A recovery is a reception by a stale monitor, a timeout a
      poll that finds a fresh monitor silent, a revival a poll that finds a stale one not silent. */
  datatype Tally = Tally(received: nat, failed: nat, recoveries: nat, timeouts: nat, revivals: nat)

  function Count(h: seq<Event>, timeout: real): Tally
    decreases |h|
  {
    if h == [] then Tally(0, 0, 0, 0, 0)
    else
      var before := h[..|h| - 1];
      var t, stale := Count(before, timeout), IsStale(before, timeout);
      match h[|h| - 1]
      case Received(_) => t.(received := t.received + 1, recoveries := t.recoveries + if stale then 1 else 0)
      case Failed(_) => t.(failed := t.failed + 1)
      case Polled(now) =>
        var silent := Silent(LastRx(before), now, timeout);
        if silent && !stale then t.(timeouts := t.timeouts + 1)
        else if !silent && stale then t.(revivals := t.revivals + 1)
        else t
  }

  /** The time of the latest decoding error or timeout, 0 before the first. */
  function LastFault(h: seq<Event>, timeout: real): real
    decreases |h|
  {
    if h == [] then 0.0
    else
      var before, e := h[..|h| - 1], h[|h| - 1];
      if e.Failed? || (e.Polled? && !IsStale(before, timeout) && IsStale(h, timeout)) then e.now
      else LastFault(before, timeout)
  }

  function StatusOf(h: seq<Event>, timeout: real): Status {
    var t := Count(h, timeout);
    Status(!IsStale(h, timeout), IsStale(h, timeout), t.received, t.timeouts, t.failed, LastRx(h),
           LastFault(h, timeout))
  }

  // ----- Freshness -----

  /** `k` is the latest event that says anything about freshness. */
  ghost predicate Decides(h: seq<Event>, k: int) {
    && 0 <= k < |h| && !h[k].Failed?
    && forall j :: k < j < |h| ==> h[j].Failed?
  }

  /** `r` is the latest reception. */
  ghost predicate LatestReception(h: seq<Event>, r: int) {
    && 0 <= r < |h| && h[r].Received?
    && forall j :: r < j < |h| ==> !h[j].Received?
  }

  /** What `LastRx` is, on positions: the time of the latest reception, or 0 if there is none. */
  lemma {:induction false} LastRxMeans(h: seq<Event>)
    ensures forall r :: LatestReception(h, r) ==> LastRx(h) == h[r].at
    ensures (exists r :: LatestReception(h, r)) || (LastRx(h) == 0.0 && forall j :: 0 <= j < |h| ==> !h[j].Received?)
    decreases |h|
  {
    if h != [] {
      var n := |h| - 1;
      var before := h[..n];
      LastRxMeans(before);
      if h[n].Received? {
        assert LatestReception(h, n);
      } else {
        assert forall r :: LatestReception(h, r) ==> LatestReception(before, r);
        if r :| LatestReception(before, r) { assert LatestReception(h, r); }
      }
    }
  }

  /** The poll at `k` came within the timeout of the latest reception, which was at a positive time. */
  ghost predicate InTime(h: seq<Event>, k: int, timeout: real)
    requires 0 <= k < |h| && h[k].Polled?
  {
    exists r :: LatestReception(h, r) && r < k && 0.0 < h[r].at && h[k].now - h[r].at <= timeout
  }

  /** Main result: a monitor is fresh exactly if the latest reception or poll is a reception, or a
      poll within the timeout of the latest reception, at a positive time. */
  lemma FreshExactly(h: seq<Event>, timeout: real)
    ensures !IsStale(h, timeout) <==> exists k :: Decides(h, k) && (h[k].Polled? ==> InTime(h, k, timeout))
  {
    FreshByLastRx(h, timeout);
    forall k | Decides(h, k) && h[k].Polled?
      ensures InTime(h, k, timeout) <==> 0.0 < LastRx(h) && h[k].now - LastRx(h) <= timeout
    {
      LastRxMeans(h);
      if 0.0 < LastRx(h) && h[k].now - LastRx(h) <= timeout {
        var r :| LatestReception(h, r);
        assert r < k;
      }
    }
  }

  lemma {:induction false} FreshByLastRx(h: seq<Event>, timeout: real)
    ensures !IsStale(h, timeout) <==>
            exists k :: Decides(h, k) && (h[k].Polled? ==> 0.0 < LastRx(h) && h[k].now - LastRx(h) <= timeout)
    decreases |h|
  {
    if h != [] {
      var n := |h| - 1;
      var before := h[..n];
      if h[n].Failed? {
        FreshByLastRx(before, timeout);
        DecidesEarlier(h);
      } else {
        assert Decides(h, n);
        assert forall k :: Decides(h, k) ==> k == n;
      }
    }
  }

  lemma DecidesEarlier(h: seq<Event>)
    requires h != [] && h[|h| - 1].Failed?
    ensures forall k :: Decides(h, k) <==> Decides(h[..|h| - 1], k)
    ensures forall k :: Decides(h, k) ==> h[k] == h[..|h| - 1][k]
  {
    var before := h[..|h| - 1];
    forall k | Decides(before, k) ensures Decides(h, k) {
      assert h[k] == before[k];
      forall j | k < j < |h| ensures h[j].Failed? {
        if j < |before| { assert before[j].Failed?; }
      }
    }
  }

  /** The poll at `k` found a fresh monitor silent. */
  ghost predicate TimedOutAt(h: seq<Event>, timeout: real, k: nat)
    requires k < |h|
  {
    h[k].Polled? && !IsStale(h[..k], timeout) && IsStale(h[..k + 1], timeout)
  }

  /** At `k` a frame could not be decoded, or a poll found a fresh monitor silent. */
  ghost predicate FaultAt(h: seq<Event>, timeout: real, k: nat)
    requires k < |h|
  {
    h[k].Failed? || TimedOutAt(h, timeout, k)
  }

  /** `k` is the latest fault. */
  ghost predicate LatestFault(h: seq<Event>, timeout: real, k: nat) {
    k < |h| && FaultAt(h, timeout, k) && forall j: nat :: k < j < |h| ==> !FaultAt(h, timeout, j)
  }

  /** The time of the latest fault, stated on positions: 0 if there is none. */
  lemma {:induction false} LastFaultMeans(h: seq<Event>, timeout: real)
    ensures forall k: nat :: LatestFault(h, timeout, k) ==> LastFault(h, timeout) == h[k].now
    ensures (forall k: nat :: k < |h| ==> !FaultAt(h, timeout, k)) ==> LastFault(h, timeout) == 0.0
    decreases |h|
  {
    if h != [] {
      var n := |h| - 1;
      var before := h[..n];
      assert h[..n + 1] == h;
      FaultsEarlier(h, timeout);
      LastFaultMeans(before, timeout);
      if FaultAt(h, timeout, n) {
        assert LastFault(h, timeout) == h[n].now;
      } else {
        assert LastFault(h, timeout) == LastFault(before, timeout);
        if forall k: nat :: k < |h| ==> !FaultAt(h, timeout, k) {
          forall k: nat | k < |before| ensures !FaultAt(before, timeout, k) {
            assert !FaultAt(h, timeout, k);
          }
        }
        forall k: nat | LatestFault(h, timeout, k) ensures LatestFault(before, timeout, k) {
          assert k < n && FaultAt(before, timeout, k);
          forall j: nat | k < j < |before| ensures !FaultAt(before, timeout, j) {
            assert !FaultAt(h, timeout, j);
          }
        }
      }
    }
  }

  lemma FaultsEarlier(h: seq<Event>, timeout: real)
    requires h != []
    ensures forall k: nat :: k < |h| - 1 ==> (FaultAt(h, timeout, k) <==> FaultAt(h[..|h| - 1], timeout, k))
  {
    forall k: nat | k < |h| - 1 ensures FaultAt(h, timeout, k) <==> FaultAt(h[..|h| - 1], timeout, k) {
      assert h[..|h| - 1][..k] == h[..k] && h[..|h| - 1][..k + 1] == h[..k + 1];
    }
  }

  // ----- Counters -----

  ghost function Receptions(h: seq<Event>): set<nat> { set k: nat | k < |h| && h[k].Received? }

  ghost function Failures(h: seq<Event>): set<nat> { set k: nat | k < |h| && h[k].Failed? }

  ghost function Timeouts(h: seq<Event>, timeout: real): set<nat> { set k: nat | k < |h| && TimedOutAt(h, timeout, k) }

  /** What a status counts: the receptions, the frames that could not be decoded, and the polls that found a
      fresh monitor silent. */
  lemma {:induction false} StatusCounts(h: seq<Event>, timeout: real)
    ensures var s := StatusOf(h, timeout);
            && s.rxCount == |Receptions(h)| && s.decodeErrorCount == |Failures(h)|
            && s.timeoutCount == |Timeouts(h, timeout)|
    decreases |h|
  {
    if h != [] {
      StatusCounts(h[..|h| - 1], timeout);
      CountGrows(h, timeout);
      EventsGrow(h);
      TimeoutsGrow(h, timeout);
    } else {
      assert Receptions(h) == {} && Failures(h) == {} && Timeouts(h, timeout) == {};
    }
  }

  lemma CountGrows(h: seq<Event>, timeout: real)
    requires h != []
    ensures var n := |h| - 1;
            var s, t := StatusOf(h[..n], timeout), StatusOf(h, timeout);
            && t.rxCount == s.rxCount + (if h[n].Received? then 1 else 0)
            && t.decodeErrorCount == s.decodeErrorCount + (if h[n].Failed? then 1 else 0)
            && t.timeoutCount == s.timeoutCount + if TimedOutAt(h, timeout, n) then 1 else 0
  {
    assert h[..|h| - 1 + 1] == h;
  }

  lemma EventsGrow(h: seq<Event>)
    requires h != []
    ensures var n := |h| - 1;
            && |Receptions(h)| == |Receptions(h[..n])| + (if h[n].Received? then 1 else 0)
            && |Failures(h)| == |Failures(h[..n])| + if h[n].Failed? then 1 else 0
  {
    var n := |h| - 1;
    assert Receptions(h) == Receptions(h[..n]) + if h[n].Received? then {n} else {};
    assert Failures(h) == Failures(h[..n]) + if h[n].Failed? then {n} else {};
  }

  lemma TimeoutsGrow(h: seq<Event>, timeout: real)
    requires h != []
    ensures var n := |h| - 1;
            |Timeouts(h, timeout)| == |Timeouts(h[..n], timeout)| + if TimedOutAt(h, timeout, n) then 1 else 0
  {
    var n := |h| - 1;
    forall k: nat | k < n ensures TimedOutAt(h, timeout, k) <==> TimedOutAt(h[..n], timeout, k) {
      assert h[..n][..k] == h[..k] && h[..n][..k + 1] == h[..k + 1];
    }
    assert Timeouts(h, timeout) == Timeouts(h[..n], timeout) + if TimedOutAt(h, timeout, n) then {n} else {};
  }

  /** Every time a monitor becomes fresh is matched by a timeout, save the one it may still be in. */
  lemma {:induction false} TransitionsBalance(h: seq<Event>, timeout: real)
    ensures var t := Count(h, timeout);
            && t.timeouts + (if IsStale(h, timeout) then 0 else 1) == t.recoveries + t.revivals
            && t.recoveries <= t.received
    decreases |h|
  {
    if h != [] { TransitionsBalance(h[..|h| - 1], timeout); }
  }

  ghost predicate PollsInOrder(h: seq<Event>) {
    forall i, j :: 0 <= i < j < |h| && h[i].Polled? && h[j].Polled? ==> h[i].now <= h[j].now
  }

  /** A stale monitor was stale from the start, or has seen a poll that came too late. */
  lemma {:induction false} StaleReason(h: seq<Event>, timeout: real)
    requires IsStale(h, timeout)
    ensures LastRx(h) <= 0.0 || exists k :: 0 <= k < |h| && h[k].Polled? && h[k].now - LastRx(h) > timeout
    decreases |h|
  {
    if h != [] && h[|h| - 1].Failed? {
      var before := h[..|h| - 1];
      StaleReason(before, timeout);
      if LastRx(before) > 0.0 {
        var k :| 0 <= k < |before| && before[k].Polled? && before[k].now - LastRx(before) > timeout;
        assert h[k] == before[k];
      }
    }
  }

  lemma {:induction false} PollsNeverRevive(h: seq<Event>, timeout: real)
    requires PollsInOrder(h)
    ensures Count(h, timeout).revivals == 0
    decreases |h|
  {
    if h != [] {
      var n := |h| - 1;
      var before := h[..n];
      PollsNeverRevive(before, timeout);
      if h[n].Polled? && IsStale(before, timeout) {
        StaleReason(before, timeout);
        if LastRx(before) > 0.0 {
          var k :| 0 <= k < |before| && before[k].Polled? && before[k].now - LastRx(before) > timeout;
          assert h[k].now <= h[n].now;
        }
      }
    }
  }

  /** Main result, for a clock that does not run backwards: the timeouts so far, and one more if
      the monitor is fresh, are exactly the receptions that found it stale. The times of the
      receptions are arbitrary. */
  lemma TimeoutsMatchRecoveries(h: seq<Event>, timeout: real)
    requires PollsInOrder(h)
    ensures var t := Count(h, timeout);
            && t.timeouts + (if IsStale(h, timeout) then 0 else 1) == t.recoveries
            && t.recoveries <= t.received
  {
    TransitionsBalance(h, timeout);
    PollsNeverRevive(h, timeout);
  }

  /** The same on the status that a poll reports. */
  lemma StatusBalances(h: seq<Event>, timeout: real)
    requires PollsInOrder(h)
    ensures var s := StatusOf(h, timeout);
            && s.isOnline == !s.isStale
            && s.timeoutCount + (if s.isOnline then 1 else 0) <= s.rxCount
  {
    TimeoutsMatchRecoveries(h, timeout);
  }

  /** The hypothesis on the polls is needed: out of order, they would count two timeouts for one
      reception. The clock that the code reads never does this. */
  lemma PollOrderIsNeeded()
    ensures var h := [Received(1.0), Polled(9.0), Polled(1.0), Polled(9.0)];
            Count(h, 1.0).received == 1 && Count(h, 1.0).timeouts == 2
  {
    var h1 := [Received(1.0)];
    var h2 := h1 + [Polled(9.0)];
    var h3 := h2 + [Polled(1.0)];
    AppendEvent([], Received(1.0));
    assert [] + h1 == h1;
    assert LastRx(h1) == 1.0 && !IsStale(h1, 1.0) && Count(h1, 1.0) == Tally(1, 0, 1, 0, 0);
    AppendEvent(h1, Polled(9.0));
    assert LastRx(h2) == 1.0 && IsStale(h2, 1.0) && Count(h2, 1.0) == Tally(1, 0, 1, 1, 0);
    AppendEvent(h2, Polled(1.0));
    assert LastRx(h3) == 1.0 && !IsStale(h3, 1.0) && Count(h3, 1.0) == Tally(1, 0, 1, 1, 1);
    AppendEvent(h3, Polled(9.0));
    assert Count(h3 + [Polled(9.0)], 1.0) == Tally(1, 0, 1, 2, 1);
    assert h3 + [Polled(9.0)] == [Received(1.0), Polled(9.0), Polled(1.0), Polled(9.0)];
  }

  // ----- The monitor -----

  lemma AppendEvent(h: seq<Event>, e: Event)
    ensures (h + [e])[..|h + [e]| - 1] == h && (h + [e])[|h + [e]| - 1] == e
  {
  }

  class BestEffortCommManager {
    const timeout: real
    var status: Status
    ghost var history: seq<Event>

    constructor (timeout: real)
      ensures Valid() && history == [] && this.timeout == timeout
    {
      this.timeout := timeout;
      status, history := Status(false, true, 0, 0, 0, 0.0, 0.0), [];
    }

    ghost predicate Valid()
      reads this
    {
      status == StatusOf(history, timeout)
    }

    /** `now` is the clock reading that the code takes when it is given no time of reception. */
    method MarkRx(rxTime: Option<real>, now: real)
      requires Valid()
      modifies this
      ensures Valid() && history == old(history) + [Received(if rxTime.Some? then rxTime.value else now)]
    {
      var at := if rxTime.Some? then rxTime.value else now;
      AppendEvent(history, Received(at));
      status := status.(rxCount := status.rxCount + 1, lastRxT := at, isStale := false, isOnline := true);
      history := history + [Received(at)];
    }

    method MarkDecodeError(now: real)
      requires Valid()
      modifies this
      ensures Valid() && history == old(history) + [Failed(now)]
    {
      AppendEvent(history, Failed(now));
      status := status.(decodeErrorCount := status.decodeErrorCount + 1, lastFaultT := now);
      history := history + [Failed(now)];
    }

    method UpdateFaultFlags(now: real) returns (s: Status)
      requires Valid()
      modifies this
      ensures Valid() && history == old(history) + [Polled(now)] && s == status
    {
      AppendEvent(history, Polled(now));
      var wasStale := status.isStale;
      if status.lastRxT <= 0.0 {
        status := status.(isStale := true, isOnline := false);
        if !wasStale {
          status := status.(timeoutCount := status.timeoutCount + 1, lastFaultT := now);
        }
      } else {
        var stale := now - status.lastRxT > timeout;
        status := status.(isStale := stale, isOnline := !stale);
        if stale && !wasStale {
          status := status.(timeoutCount := status.timeoutCount + 1, lastFaultT := now);
        }
      }
      history := history + [Polled(now)];
      s := status;
    }

    method IsFresh(now: real) returns (r: bool)
      requires Valid()
      modifies this
      ensures Valid() && history == old(history) + [Polled(now)]
      ensures r <==> !Silent(LastRx(old(history)), now, timeout)
    {
      AppendEvent(history, Polled(now));
      var s := UpdateFaultFlags(now);
      r := !s.isStale;
    }
  }
}
